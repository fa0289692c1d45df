/**
 * Cumulative work in a thread. A reply names the tips of what its author has seen as parents and weighs more than
 * all of it, so weights grow from parent to child, whatever each author had seen.
 */
module ThreadWeights {
  import opened Sets
  import opened ThreadDag

  const NETWORK_DIFFICULTY := 12
  const MAX_TIPS := 2

  /** Every post weighs more than each of its registered parents. */
  ghost predicate WeightsGrow(nodes: Posts) {
    forall c, p :: c in nodes && p in nodes && p in nodes[c].parents ==> nodes[p].cumulativePow < nodes[c].cumulativePow
  }

  /** No registered post names id as a parent. */
  ghost predicate IsChildless(nodes: Posts, id: string) {
    id in nodes && forall c :: c in nodes ==> id !in nodes[c].parents
  }

  lemma {:induction false} WalkLosesWeight(nodes: Posts, walk: seq<string>, i: nat, j: nat)
    requires WeightsGrow(nodes) && IsParentWalk(nodes, walk) && i < j < |walk|
    ensures nodes[walk[j]].cumulativePow < nodes[walk[i]].cumulativePow
  {
    if i + 1 < j { WalkLosesWeight(nodes, walk, i, j - 1); }
    assert walk[j] in nodes[walk[j - 1]].parents;
  }

  /** Growing weights rule out cycles, so every post is displayed. */
  lemma GrowingWeightsShowAll(nodes: Posts)
    requires WellKeyed(nodes) && WeightsGrow(nodes)
    ensures forall id :: id in nodes <==> id in Canon(nodes, {})
  {
    hide Canon;
    forall id | id in nodes ensures id in Canon(nodes, {}) {
      if LeadsToCycle(nodes, id) {
        var walk: seq<string>, i: nat, j: nat :|
          IsParentWalk(nodes, walk) && i < j < |walk| && walk[0] == id && walk[i] == walk[j];
        WalkLosesWeight(nodes, walk, i, j);
      }
      ShownIffNoCycle(nodes, id);
    }
  }

  /** Some childless post descends from id, or is id. */
  ghost predicate HasChildlessDescendant(nodes: Posts, id: string) {
    exists walk: seq<string> ::
      walk != [] && IsParentWalk(nodes, walk) && IsChildless(nodes, walk[0]) && walk[|walk| - 1] == id
  }

  ghost function HeavierThan(nodes: Posts, id: string): set<string>
    requires id in nodes
  {
    set x | x in nodes && nodes[x].cumulativePow > nodes[id].cumulativePow
  }

  lemma {:induction false} EveryPostHasAChildlessDescendant(nodes: Posts, id: string)
    requires WeightsGrow(nodes) && id in nodes
    ensures HasChildlessDescendant(nodes, id)
    decreases |HeavierThan(nodes, id)|
  {
    if IsChildless(nodes, id) {
      assert IsParentWalk(nodes, [id]);
    } else {
      var c :| c in nodes && id in nodes[c].parents;
      FewerAreHeavier(nodes, id, c);
      EveryPostHasAChildlessDescendant(nodes, c);
      var walk: seq<string> :|
        walk != [] && IsParentWalk(nodes, walk) && IsChildless(nodes, walk[0]) && walk[|walk| - 1] == c;
      WalkOn(nodes, walk, id);
      assert (walk + [id])[|walk|] == id && (walk + [id])[0] == walk[0];
    }
  }

  lemma FewerAreHeavier(nodes: Posts, id: string, c: string)
    requires id in nodes && c in nodes && nodes[c].cumulativePow > nodes[id].cumulativePow
    ensures |HeavierThan(nodes, c)| < |HeavierThan(nodes, id)|
  {
    assert HeavierThan(nodes, c) <= HeavierThan(nodes, id) - {c};
    SubsetSize(HeavierThan(nodes, c), HeavierThan(nodes, id) - {c});
  }

  /** a comes before b among the tips: more work, or as much and later. */
  predicate Preferred(nodes: Posts, a: string, b: string)
    requires a in nodes && b in nodes
  {
    nodes[a].cumulativePow > nodes[b].cumulativePow
    || (nodes[a].cumulativePow == nodes[b].cumulativePow && nodes[a].createdAt > nodes[b].createdAt)
  }

  /** At most two childless posts, without repeats, such that no other childless post is preferred to them. */
  ghost predicate AreTips(nodes: Posts, tips: seq<string>) {
    && |tips| <= MAX_TIPS
    && (forall x :: x in tips ==> IsChildless(nodes, x))
    && (forall i, j :: 0 <= i < j < |tips| ==>
          tips[i] != tips[j] && IsChildless(nodes, tips[i]) && IsChildless(nodes, tips[j])
          && !Preferred(nodes, tips[j], tips[i]))
    && (|tips| < MAX_TIPS ==> forall x :: IsChildless(nodes, x) ==> x in tips)
    && (forall x, t :: IsChildless(nodes, x) && x !in tips && t in tips ==> !Preferred(nodes, x, t))
  }

  /**
   * Nobody names a tip as a parent, and there are at most two. Every other post is named by somebody, or there are two
   * tips and it has less work behind it than either, or as much and is no later. So it is with the second tip and the first.
   */
  ghost predicate BestByWork(nodes: Posts, tips: seq<string>) {
    && |tips| <= 2 && (forall t, c :: t in tips && c in nodes ==> t in nodes && t !in nodes[c].parents)
    && (forall x :: x in nodes && x !in tips && |tips| < 2 ==> exists c :: c in nodes && x in nodes[c].parents)
    && (forall x, t :: x in nodes && x !in tips && t in tips && t in nodes ==>
          NoBetter(nodes[x], nodes[t]) || exists c :: c in nodes && x in nodes[c].parents)
    && (|tips| == 2 ==>
          tips[0] != tips[1] && tips[0] in nodes && tips[1] in nodes && NoBetter(nodes[tips[1]], nodes[tips[0]]))
  }

  ghost predicate NoBetter(x: Post, t: Post) {
    x.cumulativePow < t.cumulativePow || (x.cumulativePow == t.cumulativePow && x.createdAt <= t.createdAt)
  }

  lemma TipsAreBest(nodes: Posts, tips: seq<string>)
    requires AreTips(nodes, tips)
    ensures BestByWork(nodes, tips)
  {
    forall x | x in nodes && x !in tips ensures IsChildless(nodes, x) || exists c :: c in nodes && x in nodes[c].parents {}
    if |tips| == 2 { assert tips[0] in tips && tips[1] in tips; }
  }

  /** A thread with any posts has tips to reply to. */
  lemma SomethingToReplyTo(nodes: Posts, tips: seq<string>)
    requires WeightsGrow(nodes) && nodes.Keys != {} && AreTips(nodes, tips)
    ensures tips != []
  {
    var id :| id in nodes;
    EveryPostHasAChildlessDescendant(nodes, id);
    var walk: seq<string> :|
      walk != [] && IsParentWalk(nodes, walk) && IsChildless(nodes, walk[0]) && walk[|walk| - 1] == id;
  }

  ghost predicate IsMaxPow(nodes: Posts, max: int) {
    && max >= 0
    && (forall id :: id in nodes ==> nodes[id].cumulativePow <= max)
    && (max == 0 || exists id :: id in nodes && nodes[id].cumulativePow == max)
  }

  /** A reply written by somebody who has seen `view`. */
  ghost predicate IsReplyTo(view: Posts, post: Post) {
    exists max :: IsMaxPow(view, max) && AreTips(view, post.parents) && post.cumulativePow == max + NETWORK_DIFFICULTY
  }

  /** Replying keeps weights growing, exactly when nobody already names the new id as a parent. */
  lemma ReplyKeepsWeightsGrowingIff(nodes: Posts, post: Post)
    requires WeightsGrow(nodes) && post.packetId !in nodes && IsReplyTo(nodes, post)
    ensures WeightsGrow(nodes[post.packetId := post]) <==> forall c :: c in nodes ==> post.packetId !in nodes[c].parents
  {
    var max :| IsMaxPow(nodes, max) && AreTips(nodes, post.parents) && post.cumulativePow == max + NETWORK_DIFFICULTY;
    var more := nodes[post.packetId := post];
    if c :| c in nodes && post.packetId in nodes[c].parents {
      assert more[post.packetId].cumulativePow > more[c].cumulativePow;
    }
  }

  /** What the reply leaves to reply to: the tips it did not take, and itself. */
  lemma ReplyReplacesItsParents(nodes: Posts, post: Post, x: string)
    requires post.packetId !in nodes && IsReplyTo(nodes, post)
    requires forall c :: c in nodes ==> post.packetId !in nodes[c].parents
    ensures IsChildless(nodes[post.packetId := post], x) <==>
      x == post.packetId || (IsChildless(nodes, x) && x !in post.parents)
  {
    var more, id := nodes[post.packetId := post], post.packetId;
    assert id !in post.parents;
    assert forall c :: c in nodes ==> more[c] == nodes[c];
    assert more[id] == post;
    if IsChildless(more, x) && x != id {
      assert forall c :: c in nodes ==> x !in more[c].parents;
      assert x !in more[id].parents;
    }
  }

  /** One author's step: what it has seen of the thread, and the reply it writes. */
  datatype Step = Reply(view: Posts, post: Post)

  /** A thread all of whose posts name only posts of the thread. */
  ghost predicate Closed(nodes: Posts) {
    forall c, p :: c in nodes && p in nodes[c].parents ==> p in nodes
  }

  ghost predicate Sees(nodes: Posts, view: Posts) {
    forall id :: id in view ==> id in nodes && view[id] == nodes[id]
  }

  /** Authors reply one after the other, each from any part of the thread so far, under a fresh id. */
  ghost predicate IsHistory(nodes: Posts, steps: seq<Step>, end: Posts)
    decreases |steps|
  {
    if steps == [] then end == nodes
    else
      var step := steps[0];
      && Sees(nodes, step.view) && step.post.packetId !in nodes && IsReplyTo(step.view, step.post)
      && IsHistory(nodes[step.post.packetId := step.post], steps[1..], end)
  }

  lemma ReplyFromAnyView(nodes: Posts, view: Posts, post: Post)
    requires WellKeyed(nodes) && WeightsGrow(nodes) && Closed(nodes)
    requires Sees(nodes, view) && post.packetId !in nodes && IsReplyTo(view, post)
    ensures var more := nodes[post.packetId := post]; WellKeyed(more) && WeightsGrow(more) && Closed(more)
  {
    var max :| IsMaxPow(view, max) && AreTips(view, post.parents) && post.cumulativePow == max + NETWORK_DIFFICULTY;
    assert forall p :: p in post.parents ==> p in view && view[p].cumulativePow <= max;
  }

  lemma {:induction false} HistoryKeepsWeightsGrowing(nodes: Posts, steps: seq<Step>, end: Posts)
    requires WellKeyed(nodes) && WeightsGrow(nodes) && Closed(nodes) && IsHistory(nodes, steps, end)
    ensures WellKeyed(end) && WeightsGrow(end) && Closed(end)
    decreases |steps|
  {
    hide WellKeyed, WeightsGrow, Closed, Sees, IsReplyTo;
    if steps != [] {
      ReplyFromAnyView(nodes, steps[0].view, steps[0].post);
      HistoryKeepsWeightsGrowing(nodes[steps[0].post.packetId := steps[0].post], steps[1..], end);
    }
  }

  /**
   * Whatever part of such a thread a reader has received, all of it is displayed, and every post of it leads on to a
   * post that can be replied to.
   */
  lemma EveryViewShowsAll(steps: seq<Step>, end: Posts, view: Posts)
    requires IsHistory(map[], steps, end) && Sees(end, view)
    ensures WellKeyed(view) && (forall id :: id in view <==> id in Canon(view, {}))
    ensures forall id :: id in view ==> HasChildlessDescendant(view, id)
  {
    hide IsHistory, HasChildlessDescendant, Canon;
    HistoryKeepsWeightsGrowing(map[], steps, end);
    GrowingWeightsShowAll(view);
    forall id | id in view ensures HasChildlessDescendant(view, id) {
      EveryPostHasAChildlessDescendant(view, id);
    }
  }
}
