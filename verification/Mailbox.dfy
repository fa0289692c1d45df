/** The mailbox that the mesh keeps on the K nodes nearest to a topic: plain functions of positions and mailboxes. */
module MailboxStore {
  import opened Sets
  import opened StableOrder

  type Mailbox = map<string, seq<string>>

  function Abs(x: real): real {
    if x < 0.0 then -x else x
  }

  function RingDist(a: real, b: real): real {
    var d := Abs(a - b);
    if d <= 1.0 - d then d else 1.0 - d
  }

  /** How far it is clockwise from a to b. */
  function Arc(a: real, b: real): real {
    if a <= b then b - a else b - a + 1.0
  }

  predicate OnCircle(a: real) {
    0.0 <= a < 1.0
  }

  /** The place reached by turning clockwise. */
  function Turned(a: real, angle: real): real {
    if a + angle < 1.0 then a + angle else a + angle - 1.0
  }

  /** The ring distance is the shorter way around, whichever end one starts from. */
  lemma RingDistIsShorterArc(a: real, b: real)
    requires OnCircle(a) && OnCircle(b)
    ensures RingDist(a, b) <= Arc(a, b) && RingDist(a, b) <= Arc(b, a)
    ensures RingDist(a, b) == Arc(a, b) || RingDist(a, b) == Arc(b, a)
    ensures 0.0 <= RingDist(a, b) <= 0.5 && (RingDist(a, b) == 0.0 <==> a == b)
  {
  }

  /** It depends on the two places only relative to each other. */
  lemma RingDistTurns(a: real, b: real, angle: real)
    requires OnCircle(a) && OnCircle(b) && OnCircle(angle)
    ensures OnCircle(Turned(a, angle)) && OnCircle(Turned(b, angle))
    ensures RingDist(Turned(a, angle), Turned(b, angle)) == RingDist(a, b)
  {
  }

  /** JavaScript's conversion to a 32-bit integer. */
  function Int32(x: int): int {
    (x + 0x8000_0000) % 0x1_0000_0000 - 0x8000_0000
  }

  /** The rolling hash of a topic, one character at a time. */
  function TopicHash(topic: string): int {
    if topic == "" then 0 else
      var hash := TopicHash(topic[..|topic| - 1]);
      Int32(Int32(hash * 32) - hash + topic[|topic| - 1] as int)
  }

  /** |hash % 10000| / 10000, where the remainder takes the sign of the hash. */
  function PlaceOfHash(hash: int): (place: real)
    ensures 0.0 <= place < 1.0
  {
    ((if hash < 0 then -hash else hash) % 10000) as real / 10000.0
  }

  /** One more character: 31 times the hash plus its code, as a 32-bit integer. */
  lemma HashRolls(topic: string, c: char)
    ensures TopicHash("") == 0
    ensures -0x8000_0000 <= TopicHash(topic + [c]) < 0x8000_0000
    ensures (TopicHash(topic + [c]) - (31 * TopicHash(topic) + c as int)) % 0x1_0000_0000 == 0
  {
    hide Int32;
    var h, n := TopicHash(topic), c as int;
    assert (topic + [c])[..|topic|] == topic;
    var q := WrapsBy(h * 32);
    var r := WrapsBy(Int32(h * 32) - h + n);
    WholeTurns(-q - r);
    assert TopicHash(topic + [c]) - (31 * h + n) == (-q - r) * 0x1_0000_0000;
  }

  /** Wrapping takes away whole multiples of 2^32. */
  lemma WrapsBy(x: int) returns (q: int)
    ensures Int32(x) == x - q * 0x1_0000_0000 && -0x8000_0000 <= Int32(x) < 0x8000_0000 && Int32(0) == 0
  {
    q := (x + 0x8000_0000) / 0x1_0000_0000;
  }

  lemma WholeTurns(q: int)
    ensures (q * 0x1_0000_0000) % 0x1_0000_0000 == 0
  {
  }

  /** The place counts the last four decimal digits of the hash, sign aside, in ten-thousandths of the circle. */
  lemma PlaceIsLastDigits(hash: int) returns (n: nat)
    ensures n < 10000 && PlaceOfHash(hash) == n as real / 10000.0
    ensures hash >= 0 ==> (hash - n) % 10000 == 0
    ensures hash < 0 ==> (hash + n) % 10000 == 0
  {
    n := (if hash < 0 then -hash else hash) % 10000;
  }

  function TopicPlace(topic: string): (place: real)
    ensures 0.0 <= place < 1.0
  {
    PlaceOfHash(TopicHash(topic))
  }

  method TargetPosition(topic: string) returns (place: real)
    ensures place == TopicPlace(topic)
  {
    hide Int32;
    var hash: int := 0;
    for i := 0 to |topic|
      invariant hash == TopicHash(topic[..i])
    {
      assert topic[..i + 1][..i] == topic[..i];
      hash := Int32(Int32(hash * 32) - hash + topic[i] as int);
    }
    assert topic[..|topic|] == topic;
    place := PlaceOfHash(hash);
  }

  /** The sort key of the lookup: how far every node is from the topic. */
  function Distances(position: map<nat, real>, target: real): map<nat, real> {
    map id | id in position :: RingDist(position[id], target)
  }

  ghost function Holders(position: map<nat, real>, topic: string, k: nat): seq<nat> {
    Nearest(Distances(position, TopicPlace(topic)), k)
  }

  function Appended(box: Mailbox, topic: string, data: string): Mailbox {
    box[topic := (if topic in box then box[topic] else []) + [data]]
  }

  function PutAll(mailbox: map<nat, Mailbox>, nodes: set<nat>, topic: string, data: string): map<nat, Mailbox> {
    map id | id in mailbox :: if id in nodes then Appended(mailbox[id], topic, data) else mailbox[id]
  }

  function Entries(mailbox: map<nat, Mailbox>, id: nat, topic: string): seq<string> {
    if id in mailbox && topic in mailbox[id] then mailbox[id][topic] else []
  }

  /** What the lookup collects from the given nodes, in their order. */
  function Fetch(mailbox: map<nat, Mailbox>, nodes: seq<nat>, topic: string): seq<string> {
    if nodes == [] then [] else Fetch(mailbox, nodes[..|nodes| - 1], topic) + Entries(mailbox, nodes[|nodes| - 1], topic)
  }

  /** The answer lists the entries of each node in turn. */
  lemma {:induction false} FetchSplits(mailbox: map<nat, Mailbox>, nodes: seq<nat>, topic: string, i: nat)
    requires i < |nodes|
    ensures Fetch(mailbox, nodes, topic) ==
      Fetch(mailbox, nodes[..i], topic) + Entries(mailbox, nodes[i], topic) + Fetch(mailbox, nodes[i + 1..], topic)
  {
    hide Entries;
    var rest := nodes[..|nodes| - 1];
    if i == |nodes| - 1 {
      assert nodes[i + 1..] == [];
    } else {
      FetchSplits(mailbox, rest, topic, i);
      assert rest[..i] == nodes[..i] && rest[i + 1..] == nodes[i + 1..][..|nodes| - i - 2];
    }
  }

  lemma PutEntries(mailbox: map<nat, Mailbox>, nodes: set<nat>, topic: string, data: string)
    ensures PutAll(mailbox, nodes, topic, data).Keys == mailbox.Keys
    ensures forall v, t :: v in mailbox ==>
      Entries(PutAll(mailbox, nodes, topic, data), v, t)
      == Entries(mailbox, v, t) + (if v in nodes && t == topic then [data] else [])
  {
  }

  /** The first k nodes by the shorter way around to the target, ties by age: everyone left out is no nearer. */
  ghost predicate NearestByArc(position: map<nat, real>, target: real, k: nat, nodes: seq<nat>) {
    && |nodes| == Min(k, |position|) && Distinct(nodes) && (forall x :: x in nodes ==> x in position)
    && forall i, y :: 0 <= i < |nodes| && y in position && y !in nodes[..i] ==>
        NoFarther(position[nodes[i]], position[y], target, nodes[i] <= y)
  }

  /** The way from a to the target, on its shorter side, is no longer than either way from b, and shorter unless `tie`. */
  predicate NoFarther(a: real, b: real, target: real, tie: bool) {
    OnCircle(a) && OnCircle(b) && OnCircle(target) ==>
      var mine := if Arc(a, target) <= Arc(target, a) then Arc(a, target) else Arc(target, a);
      var other := if Arc(b, target) <= Arc(target, b) then Arc(b, target) else Arc(target, b);
      mine < other || (mine == other && tie)
  }

  lemma HoldersByArc(position: map<nat, real>, topic: string, k: nat)
    ensures NearestByArc(position, TopicPlace(topic), k, Holders(position, topic, k))
  {
    hide Nearest, TopicPlace, Distances, NearestByArc;
    NearestIsByArc(position, TopicPlace(topic), k);
  }

  lemma NearestIsByArc(position: map<nat, real>, target: real, k: nat)
    ensures NearestByArc(position, target, k, Nearest(Distances(position, target), k))
  {
    hide Nearest, RingDist, Arc;
    var key := Distances(position, target);
    var nodes := Nearest(key, k);
    NearestSize(key, k);
    assert |key| == |key.Keys| && key.Keys == position.Keys && |position| == |position.Keys|;
    NearestIsDistinct(key, k);
    forall x | x in nodes ensures x in position { assert x in Members(nodes); }
    forall i, y | 0 <= i < |nodes| && y in position && y !in nodes[..i]
      ensures NoFarther(position[nodes[i]], position[y], target, nodes[i] <= y)
    {
      NearestByKey(key, k, i, y);
      if OnCircle(position[nodes[i]]) && OnCircle(position[y]) && OnCircle(target) {
        RingDistIsShorterArc(position[nodes[i]], target);
        RingDistIsShorterArc(position[y], target);
      }
    }
  }

  lemma {:induction false} FetchIff(mailbox: map<nat, Mailbox>, nodes: seq<nat>, topic: string, data: string)
    ensures data in Fetch(mailbox, nodes, topic) <==> exists v :: v in nodes && data in Entries(mailbox, v, topic)
  {
    hide Entries;
    if nodes != [] {
      var rest, last := nodes[..|nodes| - 1], nodes[|nodes| - 1];
      FetchIff(mailbox, rest, topic, data);
      assert nodes == rest + [last];
      assert Fetch(mailbox, nodes, topic) == Fetch(mailbox, rest, topic) + Entries(mailbox, last, topic);
    }
  }

  /** The nodes that come before v in the order by distance from the topic. */
  ghost function Nearer(position: map<nat, real>, topic: string, v: nat): set<nat>
    requires v in position
  {
    var key := Distances(position, TopicPlace(topic));
    set x | x in key && Before(key, x, v)
  }

  lemma HolderIff(position: map<nat, real>, topic: string, k: nat, v: nat)
    ensures v in Holders(position, topic, k) <==> v in position && |Nearer(position, topic, v)| < k
  {
    hide Nearest, TopicPlace;
    if v in position {
      NearestIff(Distances(position, TopicPlace(topic)), k, v);
    } else if v in Holders(position, topic, k) {
      HoldersAreNodes(position, topic, k, v);
    }
  }

  /** Some nodes have left, and those that stayed are where they were. */
  ghost predicate OnlyLeft(position: map<nat, real>, position': map<nat, real>) {
    forall x :: x in position' ==> x in position && position'[x] == position[x]
  }

  /** However many nodes leave, a holder that stays remains among the k nearest. */
  lemma HolderStays(position: map<nat, real>, position': map<nat, real>, topic: string, k: nat, v: nat)
    requires OnlyLeft(position, position') && v in Holders(position, topic, k) && v in position'
    ensures v in Holders(position', topic, k)
  {
    hide Holders, TopicPlace, RingDist;
    HolderIff(position, topic, k, v);
    HolderIff(position', topic, k, v);
    SubsetSize(Nearer(position', topic, v), Nearer(position, topic, v));
  }

  /** Of the nodes there are, exactly those of `who` have the data. */
  ghost predicate Keepers(mailbox: map<nat, Mailbox>, topic: string, data: string, who: set<nat>) {
    forall v :: v in mailbox ==> (data in Entries(mailbox, v, topic) <==> v in who)
  }

  /** A lookup finds the data exactly if a keeper is left with fewer than k nodes nearer to the topic. */
  lemma FoundIffKeeperIsNear(
    position: map<nat, real>, mailbox: map<nat, Mailbox>, topic: string, data: string, k: nat, who: set<nat>)
    requires position.Keys == mailbox.Keys && Keepers(mailbox, topic, data, who)
    ensures data in Fetch(mailbox, Holders(position, topic, k), topic)
      <==> exists v :: v in who && v in position && |Nearer(position, topic, v)| < k
  {
    hide Fetch, Holders, Nearer, Entries;
    FetchIff(mailbox, Holders(position, topic, k), topic, data);
    forall v ensures v in Holders(position, topic, k) <==> v in position && |Nearer(position, topic, v)| < k {
      HolderIff(position, topic, k, v);
    }
    assert forall v :: v in position <==> v in mailbox;
  }

  /** Data that was nowhere is put: exactly the holders have it. */
  lemma PutMakesKeepers(mailbox: map<nat, Mailbox>, nodes: set<nat>, topic: string, data: string)
    requires Keepers(mailbox, topic, data, {})
    ensures Keepers(PutAll(mailbox, nodes, topic, data), topic, data, nodes)
  {
    var mailbox' := PutAll(mailbox, nodes, topic, data);
    forall v | v in mailbox' ensures data in Entries(mailbox', v, topic) <==> v in nodes {
      assert data !in Entries(mailbox, v, topic);
      if v in nodes { assert mailbox'[v][topic][|mailbox'[v][topic]| - 1] == data; }
    }
  }

  /** Other data changes nothing about that. */
  lemma OtherPutKeepsKeepers(
    mailbox: map<nat, Mailbox>, nodes: set<nat>, topic: string, data: string, who: set<nat>, topic': string, data': string)
    requires Keepers(mailbox, topic, data, who) && (topic' != topic || data' != data)
    ensures Keepers(PutAll(mailbox, nodes, topic', data'), topic, data, who)
  {
    var mailbox' := PutAll(mailbox, nodes, topic', data');
    forall v | v in mailbox' ensures data in Entries(mailbox', v, topic) <==> v in who {
      assert data in Entries(mailbox, v, topic) <==> v in who;
    }
  }

  /**
   * Whatever came and went since the data was put, it is found again exactly if one of its holders is left with fewer
   * than k' nodes nearer to the topic: stayers have kept what they hold, newcomers have nothing.
   */
  lemma FoundAgainIff(
    position: map<nat, real>, mailbox: map<nat, Mailbox>, topic: string, data: string, k: nat,
    position': map<nat, real>, mailbox': map<nat, Mailbox>, k': nat)
    requires position.Keys == mailbox.Keys && position'.Keys == mailbox'.Keys && Keepers(mailbox, topic, data, {})
    requires var put := PutAll(mailbox, Members(Holders(position, topic, k)), topic, data);
      forall v :: v in mailbox' ==> if v in put then mailbox'[v] == put[v] else mailbox'[v] == map[]
    ensures data in Fetch(mailbox', Holders(position', topic, k'), topic)
      <==> exists v :: v in Holders(position, topic, k) && v in position' && |Nearer(position', topic, v)| < k'
  {
    hide Fetch, Holders, Nearer;
    var who := Members(Holders(position, topic, k));
    var put := PutAll(mailbox, who, topic, data);
    PutMakesKeepers(mailbox, who, topic, data);
    forall v | v in mailbox' ensures data in Entries(mailbox', v, topic) <==> v in who {
      assert v in put ==> (data in Entries(put, v, topic) <==> v in who);
      if v in who { HoldersAreNodes(position, topic, k, v); }
    }
    FoundIffKeeperIsNear(position', mailbox', topic, data, k', who);
  }

  /** If nobody came, every holder that is left has the data and is asked: one of them is enough. */
  lemma PutSurvivesDepartures(
    position: map<nat, real>, mailbox: map<nat, Mailbox>, topic: string, data: string, k: nat,
    position': map<nat, real>, mailbox': map<nat, Mailbox>, k': nat)
    requires position.Keys == mailbox.Keys && position'.Keys == mailbox'.Keys && k <= k' && OnlyLeft(position, position')
    requires var put := PutAll(mailbox, Members(Holders(position, topic, k)), topic, data);
      forall v :: v in mailbox' ==> v in put && mailbox'[v] == put[v]
    ensures forall v :: v in Holders(position, topic, k) && v in position' ==>
      v in Holders(position', topic, k') && data in Entries(mailbox', v, topic)
    ensures (exists v :: v in Holders(position, topic, k) && v in position') ==>
      data in Fetch(mailbox', Holders(position', topic, k'), topic)
  {
    hide Fetch, Holders;
    forall v | v in Holders(position, topic, k) && v in position'
      ensures v in Holders(position', topic, k') && data in Entries(mailbox', v, topic)
    {
      HolderStays(position, position', topic, k, v);
      HolderIff(position', topic, k, v);
      HolderIff(position', topic, k', v);
      var box := Appended(mailbox[v], topic, data);
      assert box[topic][|box[topic]| - 1] == data;
    }
    FetchIff(mailbox', Holders(position', topic, k'), topic, data);
  }

  lemma PutOneMore(mailbox: map<nat, Mailbox>, nodes: seq<nat>, i: nat, topic: string, data: string)
    requires Distinct(nodes) && i < |nodes| && nodes[i] in mailbox
    ensures var mid := PutAll(mailbox, Members(nodes[..i]), topic, data);
      && nodes[i] in mid
      && mid[nodes[i] := Appended(mid[nodes[i]], topic, data)] == PutAll(mailbox, Members(nodes[..i + 1]), topic, data)
  {
    assert nodes[..i + 1] == nodes[..i] + [nodes[i]];
    assert Members(nodes[..i + 1]) == Members(nodes[..i]) + {nodes[i]};
    assert nodes[i] !in Members(nodes[..i]);
  }

  lemma PutNothing(mailbox: map<nat, Mailbox>, nodes: seq<nat>, topic: string, data: string)
    ensures PutAll(mailbox, Members(nodes[..0]), topic, data) == mailbox
  {
    assert Members(nodes[..0]) == {};
  }

  lemma HoldersAreNodes(position: map<nat, real>, topic: string, k: nat, v: nat)
    requires v in Holders(position, topic, k)
    ensures v in position
  {
    hide Order;
    assert v in Order(Distances(position, TopicPlace(topic)));
  }

  /** Half a circle away. */
  function Opposite(place: real): (far: real)
    requires 0.0 <= place < 1.0
    ensures 0.0 <= far < 1.0
  {
    if place < 0.5 then place + 0.5 else place - 0.5
  }

  /** So arrivals can hide data: a newcomer nearer to the topic takes over and answers with nothing. */
  lemma ArrivalCanHideData(topic: string, data: string)
    ensures var position, mailbox: map<nat, Mailbox> := map[0 := Opposite(TopicPlace(topic))], map[0 := map[]];
      var mailbox' := PutAll(mailbox, Members(Holders(position, topic, 1)), topic, data)[1 := map[]];
      var position' := position[1 := TopicPlace(topic)];
      0 in position' && Entries(mailbox', 0, topic) == [data] && Fetch(mailbox', Holders(position', topic, 1), topic) == []
  {
    hide TopicPlace, Nearest;
    var t := TopicPlace(topic);
    var far := Opposite(t);
    NearestOfOne(Distances(map[0 := far], t));
    NearestOfTwo(Distances(map[0 := far, 1 := t], t));
    assert map[0 := far][1 := t] == map[0 := far, 1 := t];
    assert [1][..0] == [];
  }

  lemma NearestOfOne(key: Keys)
    requires key.Keys == {0}
    ensures Nearest(key, 1) == [0]
  {
    OrderIsUnique(key, Order(key), [0]);
  }

  lemma NearestOfTwo(key: Keys)
    requires key.Keys == {0, 1} && key[1] < key[0]
    ensures Nearest(key, 1) == [1]
  {
    OrderIsUnique(key, Order(key), [1, 0]);
  }
}
