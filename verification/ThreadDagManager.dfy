/** The manager of one thread's posts, its queue-driven topological sort, and what it guarantees about a thread. */
module ThreadDagManager {
  import opened TieBreak
  import opened ThreadDag
  import opened ThreadWeights

  /** How many entries of a parent list are registered and not shown yet, duplicates counted. */
  function Pending(nodes: Posts, parents: seq<string>, done: set<string>): nat {
    if parents == [] then 0 else
      Pending(nodes, parents[..|parents| - 1], done)
      + (if parents[|parents| - 1] in nodes && parents[|parents| - 1] !in done then 1 else 0)
  }

  lemma {:induction false} PendingZero(nodes: Posts, parents: seq<string>, done: set<string>)
    ensures Pending(nodes, parents, done) == 0 <==> forall p :: p in parents && p in nodes ==> p in done
  {
    if parents != [] {
      PendingZero(nodes, parents[..|parents| - 1], done);
      assert parents == parents[..|parents| - 1] + [parents[|parents| - 1]];
    }
  }

  /** Showing x settles each of its occurrences among the parents. */
  lemma {:induction false} PendingAfter(nodes: Posts, parents: seq<string>, done: set<string>, x: string)
    requires x in nodes && x !in done
    ensures Pending(nodes, parents, done + {x}) + multiset(parents)[x] == Pending(nodes, parents, done)
  {
    if parents != [] {
      var rest := parents[..|parents| - 1];
      assert parents == rest + [parents[|parents| - 1]];
      PendingAfter(nodes, rest, done, x);
    }
  }

  /** Sorted by the tie-breaking strings. */
  ghost predicate InOrder(nodes: Posts, q: seq<string>) {
    && (forall x :: x in q ==> x in nodes)
    && (forall i, j :: 0 <= i < j < |q| ==> Before(nodes, q[i], q[j]))
  }

  function Placed(nodes: Posts, q: seq<string>, x: string): (r: seq<string>)
    requires x in nodes && forall y :: y in q ==> y in nodes
    ensures forall y :: y in r <==> y == x || y in q
  {
    if q == [] then [x]
    else if Before(nodes, x, q[0]) then [x] + q
    else [q[0]] + Placed(nodes, q[1..], x)
  }

  lemma {:induction false} PlacedInOrder(nodes: Posts, q: seq<string>, x: string)
    requires WellKeyed(nodes) && InOrder(nodes, q) && x in nodes && x !in q
    ensures InOrder(nodes, Placed(nodes, q, x))
  {
    hide Before;
    if q != [] {
      BeforeIsTotal(nodes, x, q[0]);
      if Before(nodes, x, q[0]) {
        forall j | 0 <= j < |q| ensures Before(nodes, x, q[j]) {
          if j > 0 { BeforeIsTransitive(nodes, x, q[0], q[j]); }
        }
      } else {
        PlacedInOrder(nodes, q[1..], x);
        var rest := Placed(nodes, q[1..], x);
        forall y | y in rest ensures Before(nodes, q[0], y) {
          if y != x { var i :| 0 <= i < |q[1..]| && q[1..][i] == y; assert q[i + 1] == y; }
        }
      }
    }
  }

  /** The head of a sorted queue is the least of its posts, and occurs once. */
  lemma HeadIsLeast(nodes: Posts, q: seq<string>)
    requires WellKeyed(nodes) && InOrder(nodes, q) && q != []
    ensures IsLeast(nodes, Shown(q), q[0]) && q[0] !in q[1..] && InOrder(nodes, q[1..])
    ensures Shown(q[1..]) == Shown(q) - {q[0]}
  {
    hide Before;
    forall x | x in q && x != q[0] ensures Before(nodes, q[0], x) {
      var i :| 0 <= i < |q| && q[i] == x;
    }
    if q[0] in q[1..] {
      var i :| 0 <= i < |q[1..]| && q[1..][i] == q[0];
      assert q[i + 1] == q[0] && Before(nodes, q[0], q[i + 1]);
      BeforeIsTotal(nodes, q[0], q[0]);
    }
    assert q == [q[0]] + q[1..];
    forall i, j | 0 <= i < j < |q[1..]| ensures Before(nodes, q[1..][i], q[1..][j]) {
      assert q[1..][i] == q[i + 1] && q[1..][j] == q[j + 1];
    }
  }

  /** Array.sort by the tie-breaking strings. */
  method Sort(nodes: Posts, q: seq<string>) returns (s: seq<string>)
    requires WellKeyed(nodes) && (forall x :: x in q ==> x in nodes) && forall i, j :: 0 <= i < j < |q| ==> q[i] != q[j]
    ensures InOrder(nodes, s) && Shown(s) == Shown(q) && |s| == |q|
  {
    hide Before, WellKeyed;
    s := [];
    for i := 0 to |q|
      invariant InOrder(nodes, s) && Shown(s) == Shown(q[..i]) && |s| == i
    {
      assert q[i] in q && q[..i + 1] == q[..i] + [q[i]];
      assert q[i] !in s by { assert q[i] !in Shown(q[..i]); }
      PlacedInOrder(nodes, s, q[i]);
      PlacedSize(nodes, s, q[i]);
      ShownGrows(q[..i], q[i]);
      s := Placed(nodes, s, q[i]);
    }
    assert q[..|q|] == q;
  }

  lemma {:induction false} PlacedSize(nodes: Posts, q: seq<string>, x: string)
    requires x in nodes && forall y :: y in q ==> y in nodes
    ensures |Placed(nodes, q, x)| == |q| + 1 && Shown(Placed(nodes, q, x)) == Shown(q) + {x}
  {
    if q != [] && !Before(nodes, x, q[0]) { PlacedSize(nodes, q[1..], x); }
  }

  /** node.parents.filter(p => this.nodes.has(p)). */
  function Registered(nodes: Posts, parents: seq<string>): (r: seq<string>)
    ensures forall p :: p in r ==> p in nodes
  {
    if parents == [] then [] else
      Registered(nodes, parents[..|parents| - 1])
      + (if parents[|parents| - 1] in nodes then [parents[|parents| - 1]] else [])
  }

  lemma {:induction false} RegisteredCounts(nodes: Posts, parents: seq<string>)
    ensures |Registered(nodes, parents)| == Pending(nodes, parents, {})
    ensures forall p :: p in nodes ==> multiset(Registered(nodes, parents))[p] == multiset(parents)[p]
  {
    if parents != [] {
      var rest := parents[..|parents| - 1];
      assert parents == rest + [parents[|parents| - 1]];
      RegisteredCounts(nodes, rest);
    }
  }

  function ChildrenOf(childrenMap: map<string, seq<string>>, p: string): seq<string> {
    if p in childrenMap then childrenMap[p] else []
  }

  /** Every processed post is listed under a parent as often as it names that parent, and nobody else is. */
  ghost predicate ChildrenListed(nodes: Posts, childrenMap: map<string, seq<string>>, processed: set<string>) {
    forall p, c :: p in nodes ==>
      multiset(ChildrenOf(childrenMap, p))[c] == (if c in processed && c in nodes then multiset(nodes[c].parents)[p] else 0)
  }

  ghost predicate DegreesAre(nodes: Posts, inDegree: map<string, int>, done: set<string>) {
    forall c :: c in nodes ==> c in inDegree && inDegree[c] == Pending(nodes, nodes[c].parents, done)
  }

  /** Half-way through the children of the current post: each occurrence in `freed` has taken one off. */
  ghost predicate Releasing(nodes: Posts, inDegree: map<string, int>, done: set<string>, freed: seq<string>) {
    forall c :: c in nodes ==>
      c in inDegree && inDegree[c] + multiset(freed)[c] == Pending(nodes, nodes[c].parents, done)
  }

  lemma ReadyIsPendingZero(nodes: Posts, done: set<string>, c: string)
    ensures c in Ready(nodes, done) <==> c in nodes && c !in done && Pending(nodes, nodes[c].parents, done) == 0
  {
    if c in nodes { PendingZero(nodes, nodes[c].parents, done); }
  }

  /** Whatever has been shown waits for nothing. */
  ghost predicate Settled(nodes: Posts, done: set<string>) {
    forall c :: c in nodes && c in done ==> Pending(nodes, nodes[c].parents, done) == 0
  }

  lemma SettledAfter(nodes: Posts, done: set<string>, cur: string)
    requires Settled(nodes, done) && cur in Ready(nodes, done)
    ensures Settled(nodes, done + {cur})
  {
    hide Pending, Ready;
    ReadyIsPendingZero(nodes, done, cur);
    forall c | c in nodes && c in done + {cur} ensures Pending(nodes, nodes[c].parents, done + {cur}) == 0 {
      PendingAfter(nodes, nodes[c].parents, done, cur);
    }
  }

  /** The queue holds what has in-degree zero and is not gone. */
  ghost predicate QueueIs(nodes: Posts, gone: set<string>, inDegree: map<string, int>, queue: seq<string>) {
    forall c :: c in queue <==> c in nodes && c !in gone && c in inDegree && inDegree[c] == 0
  }

  lemma ReleaseStart(
    nodes: Posts, done: set<string>, cur: string, inDegree: map<string, int>, queue: seq<string>, rest: seq<string>)
    requires DegreesAre(nodes, inDegree, done) && cur in Ready(nodes, done)
    requires Shown(queue) == Ready(nodes, done) && Shown(rest) == Shown(queue) - {cur}
    ensures Releasing(nodes, inDegree, done, []) && QueueIs(nodes, done + {cur}, inDegree, rest)
  {
    hide Pending, Ready;
    forall c ensures c in rest <==> c in nodes && c !in done + {cur} && c in inDegree && inDegree[c] == 0 {
      ReadyIsPendingZero(nodes, done, c);
      assert c in rest <==> c in Shown(rest);
      assert c in queue <==> c in Shown(queue);
    }
  }

  /** A child of the current post is neither gone nor queued, and still has an in-degree to lose. */
  lemma ChildIsWaiting(
    nodes: Posts, done: set<string>, cur: string, inDegree: map<string, int>, children: seq<string>, i: nat)
    requires cur in Ready(nodes, done) && Settled(nodes, done) && i < |children|
    requires children[i] in nodes
    requires multiset(children)[children[i]] == multiset(nodes[children[i]].parents)[cur]
    requires Releasing(nodes, inDegree, done, children[..i])
    ensures children[i] !in done + {cur} && children[i] in inDegree && inDegree[children[i]] >= 1
    ensures multiset(children[..i + 1]) == multiset(children[..i])[children[i] := multiset(children[..i])[children[i]] + 1]
  {
    hide Pending, Ready;
    var c := children[i];
    assert children == children[..i + 1] + children[i + 1..];
    assert children[..i + 1] == children[..i] + [c];
    assert multiset(children)[c] == multiset(children[..i + 1])[c] + multiset(children[i + 1..])[c];
    ReadyIsPendingZero(nodes, done, cur);
    PendingAfter(nodes, nodes[c].parents, done, cur);
  }

  lemma ReleaseOne(
    nodes: Posts, done: set<string>, cur: string, inDegree: map<string, int>, children: seq<string>, i: nat,
    queue: seq<string>, inDegree': map<string, int>, queue': seq<string>)
    requires cur in Ready(nodes, done) && Settled(nodes, done) && i < |children|
    requires children[i] in nodes
    requires multiset(children)[children[i]] == multiset(nodes[children[i]].parents)[cur]
    requires Releasing(nodes, inDegree, done, children[..i]) && QueueIs(nodes, done + {cur}, inDegree, queue)
    requires children[i] in inDegree && inDegree' == inDegree[children[i] := inDegree[children[i]] - 1]
    requires forall x :: x in queue' <==> x in queue || (x == children[i] && inDegree[children[i]] == 1)
    ensures Releasing(nodes, inDegree', done, children[..i + 1]) && QueueIs(nodes, done + {cur}, inDegree', queue')
  {
    hide Pending, Ready, Settled;
    ChildIsWaiting(nodes, done, cur, inDegree, children, i);
  }

  lemma ReleaseDone(
    nodes: Posts, done: set<string>, cur: string, inDegree: map<string, int>, children: seq<string>, queue: seq<string>)
    requires cur in Ready(nodes, done)
    requires forall c :: c in nodes ==> multiset(children)[c] == multiset(nodes[c].parents)[cur]
    requires Releasing(nodes, inDegree, done, children) && QueueIs(nodes, done + {cur}, inDegree, queue)
    ensures DegreesAre(nodes, inDegree, done + {cur}) && Shown(queue) == Ready(nodes, done + {cur})
  {
    hide Ready, Pending;
    ReadyIsPendingZero(nodes, done, cur);
    forall c | c in nodes ensures c in inDegree && inDegree[c] == Pending(nodes, nodes[c].parents, done + {cur}) {
      PendingAfter(nodes, nodes[c].parents, done, cur);
    }
    forall c ensures c in Shown(queue) <==> c in Ready(nodes, done + {cur}) {
      ReadyIsPendingZero(nodes, done + {cur}, c);
    }
  }

  /** A sorted queue has no repeats. */
  lemma SortedHasNoRepeats(nodes: Posts, q: seq<string>, x: string)
    requires WellKeyed(nodes) && InOrder(nodes, q) && x !in q
    ensures forall i, j :: 0 <= i < j < |q + [x]| ==> (q + [x])[i] != (q + [x])[j]
  {
    hide Before;
    forall i, j | 0 <= i < j < |q| ensures q[i] != q[j] {
      BeforeIsTotal(nodes, q[i], q[j]);
    }
  }

  /** Every entry of `parents` taken so far lists `current` once more under that parent. */
  ghost predicate Listing(
    nodes: Posts, childrenMap: map<string, seq<string>>, processed: set<string>, current: string, taken: seq<string>)
  {
    forall p, c :: p in nodes ==>
      multiset(ChildrenOf(childrenMap, p))[c] == Listed(nodes, processed, current, taken, p, c)
  }

  /** How often c is listed under p by now. */
  ghost function Listed(
    nodes: Posts, processed: set<string>, current: string, taken: seq<string>, p: string, c: string): nat
  {
    if c == current then multiset(taken)[p]
    else if c in processed && c in nodes then multiset(nodes[c].parents)[p] else 0
  }

  lemma ListOne(
    nodes: Posts, childrenMap: map<string, seq<string>>, processed: set<string>, current: string, taken: seq<string>,
    q: string)
    requires Listing(nodes, childrenMap, processed, current, taken)
    ensures Listing(nodes, childrenMap[q := ChildrenOf(childrenMap, q) + [current]], processed, current, taken + [q])
  {
    forall p, c | p in nodes
      ensures multiset(ChildrenOf(childrenMap[q := ChildrenOf(childrenMap, q) + [current]], p))[c] ==
        Listed(nodes, processed, current, taken + [q], p, c)
    {
      hide ChildrenOf;
      ListedUnder(childrenMap, q, current, p, c);
      PushCounts(taken, q, p);
    }
  }

  lemma ListedUnder(childrenMap: map<string, seq<string>>, q: string, current: string, p: string, c: string)
    ensures var more := childrenMap[q := ChildrenOf(childrenMap, q) + [current]];
      multiset(ChildrenOf(more, p))[c] ==
        multiset(ChildrenOf(childrenMap, p))[c] + if c == current && p == q then 1 else 0
  {
    if p == q { PushCounts(ChildrenOf(childrenMap, p), current, c); }
  }

  lemma PushCounts(s: seq<string>, x: string, y: string)
    ensures multiset(s + [x])[y] == multiset(s)[y] + if x == y then 1 else 0
  {
  }

  function IdsOf(posts: seq<Post>): (ids: seq<string>)
    ensures |ids| == |posts| && forall i :: 0 <= i < |ids| ==> ids[i] == posts[i].packetId
  {
    seq(|posts|, i requires 0 <= i < |posts| => posts[i].packetId)
  }

  lemma IdsGrow(posts: seq<Post>, post: Post)
    ensures IdsOf(posts + [post]) == IdsOf(posts) + [post.packetId]
  {
  }

  /** Appending the post shown next keeps what is shown and what is to come in line with the whole. */
  lemma GoesOn(result: seq<Post>, nodes: Posts, done: set<string>, cur: string)
    requires WellKeyed(nodes) && cur in nodes
    requires Canon(nodes, done) == [cur] + Canon(nodes, done + {cur})
    requires IdsOf(result) + Canon(nodes, done) == Canon(nodes, {})
    ensures IdsOf(result + [nodes[cur]]) + Canon(nodes, done + {cur}) == Canon(nodes, {})
  {
    hide Canon, IdsOf;
    IdsGrow(result, nodes[cur]);
    assert IdsOf(result) + ([cur] + Canon(nodes, done + {cur})) == IdsOf(result) + [cur] + Canon(nodes, done + {cur});
  }

  lemma SettledAtFirst(nodes: Posts)
    ensures Settled(nodes, {})
  {
  }

  /** The head of the queue is what the canonical order shows next. */
  lemma ShowHead(nodes: Posts, done: set<string>, cur: string)
    requires WellKeyed(nodes) && IsLeast(nodes, Ready(nodes, done), cur)
    ensures cur in nodes && cur in Ready(nodes, done) && cur !in done
    ensures Canon(nodes, done) == [cur] + Canon(nodes, done + {cur})
    ensures |nodes.Keys - (done + {cur})| < |nodes.Keys - done|
  {
    hide Before, Canon;
    CanonUnfolds(nodes, done);
    ReadyArePosts(nodes, done);
    LeastIsUnique(nodes, Ready(nodes, done), cur, Least(nodes, Ready(nodes, done)));
  }

  lemma NothingLeft(nodes: Posts, done: set<string>)
    requires WellKeyed(nodes) && Ready(nodes, done) == Shown([])
    ensures Canon(nodes, done) == []
  {
  }

  lemma ChildrenAre(nodes: Posts, childrenMap: map<string, seq<string>>, p: string)
    requires ChildrenListed(nodes, childrenMap, nodes.Keys) && p in nodes
    ensures var children := ChildrenOf(childrenMap, p);
      && (forall c :: c in nodes ==> multiset(children)[c] == multiset(nodes[c].parents)[p])
      && (forall c :: c in children ==> c in nodes)
  {
    var children := ChildrenOf(childrenMap, p);
    forall c | c in children ensures c in nodes {
      assert multiset(children)[c] > 0;
    }
  }

  class ThreadDAGManager {
    const threadId: string
    var nodes: Posts
    var arrival: seq<string>

    constructor (threadId: string)
      ensures this.threadId == threadId && nodes == map[] && WellKeyed(nodes) && Arrived(nodes, arrival)
    {
      this.threadId, nodes, arrival := threadId, map[], [];
    }

    /** The first post with an id stays; posts of other threads are refused. */
    method AddPost(post: Post) returns (added: bool)
      modifies this
      ensures nodes == Add(threadId, old(nodes), post)
      ensures added <==> post.packetId !in old(nodes) && post.threadId == threadId
      ensures old(WellKeyed(nodes)) ==> WellKeyed(nodes)
      ensures arrival == if added then old(arrival) + [post.packetId] else old(arrival)
      ensures old(Arrived(nodes, arrival)) ==> Arrived(nodes, arrival)
    {
      if post.packetId in nodes { return false; }
      if post.threadId != threadId { return false; }
      nodes, arrival := nodes[post.packetId := post], arrival + [post.packetId];
      return true;
    }

    /** Pass 1: in-degrees over the registered parents, and who is a child of whom. */
    method CountDegrees() returns (inDegree: map<string, int>, childrenMap: map<string, seq<string>>)
      requires WellKeyed(nodes)
      ensures DegreesAre(nodes, inDegree, {}) && ChildrenListed(nodes, childrenMap, nodes.Keys)
    {
      hide Pending;
      inDegree, childrenMap := map[], map[];
      var left := nodes.Keys;
      while left != {}
        invariant left <= nodes.Keys
        invariant forall c :: c in nodes && c !in left ==>
          c in inDegree && inDegree[c] == Pending(nodes, nodes[c].parents, {})
        invariant ChildrenListed(nodes, childrenMap, nodes.Keys - left)
        decreases |left|
      {
        var id :| id in left;
        var validParents := Registered(nodes, nodes[id].parents);
        RegisteredCounts(nodes, nodes[id].parents);
        inDegree := inDegree[id := |validParents|];
        childrenMap := ListUnder(childrenMap, nodes.Keys - left, id, validParents);
        left := left - {id};
      }
      assert nodes.Keys - {} == nodes.Keys;
    }

    method ListUnder(childrenMap: map<string, seq<string>>, ghost processed: set<string>, id: string, validParents: seq<string>)
      returns (more: map<string, seq<string>>)
      requires ChildrenListed(nodes, childrenMap, processed) && id in nodes && id !in processed
      requires forall p :: p in nodes ==> multiset(validParents)[p] == multiset(nodes[id].parents)[p]
      ensures forall left: set<string> :: id in left && nodes.Keys - left == processed ==>
        ChildrenListed(nodes, more, nodes.Keys - (left - {id}))
    {
      hide ChildrenOf;
      more := childrenMap;
      for i := 0 to |validParents|
        invariant Listing(nodes, more, processed, id, validParents[..i])
      {
        assert validParents[..i + 1] == validParents[..i] + [validParents[i]];
        ListOne(nodes, more, processed, id, validParents[..i], validParents[i]);
        more := more[validParents[i] := ChildrenOf(more, validParents[i]) + [id]];
      }
      assert validParents[..|validParents|] == validParents;
    }

    /** Take one off the in-degree of each child of the current post, and queue those that reach zero. */
    method Release(
      ghost done: set<string>, cur: string, children: seq<string>, degrees: map<string, int>, waiting: seq<string>)
      returns (inDegree: map<string, int>, queue: seq<string>)
      requires WellKeyed(nodes) && cur in Ready(nodes, done) && Settled(nodes, done)
      requires forall c :: c in nodes ==> multiset(children)[c] == multiset(nodes[c].parents)[cur]
      requires forall c :: c in children ==> c in nodes
      requires Releasing(nodes, degrees, done, []) && QueueIs(nodes, done + {cur}, degrees, waiting)
      requires InOrder(nodes, waiting)
      ensures DegreesAre(nodes, inDegree, done + {cur}) && Shown(queue) == Ready(nodes, done + {cur})
      ensures InOrder(nodes, queue)
    {
      hide Ready, Pending, Settled, InOrder, DegreesAre, Releasing, Shown, WellKeyed;
      inDegree, queue := degrees, waiting;
      assert children[..0] == [];
      for i := 0 to |children|
        invariant Releasing(nodes, inDegree, done, children[..i]) && QueueIs(nodes, done + {cur}, inDegree, queue)
        invariant InOrder(nodes, queue)
      {
        var childId := children[i];
        ChildIsWaiting(nodes, done, cur, inDegree, children, i);
        var newDegree := inDegree[childId] - 1;
        ghost var before, was := queue, inDegree;
        inDegree := inDegree[childId := newDegree];
        if newDegree == 0 {
          queue := Requeue(queue, childId);
        }
        ReleaseOne(nodes, done, cur, was, children, i, before, inDegree, queue);
      }
      assert children[..|children|] == children;
      ReleaseDone(nodes, done, cur, inDegree, children, queue);
    }

    method Requeue(queue: seq<string>, childId: string) returns (sorted: seq<string>)
      requires WellKeyed(nodes) && InOrder(nodes, queue) && childId in nodes && childId !in queue
      ensures InOrder(nodes, sorted) && forall x :: x in sorted <==> x in queue || x == childId
    {
      hide Before, WellKeyed;
      SortedHasNoRepeats(nodes, queue, childId);
      sorted := Sort(nodes, queue + [childId]);
      forall x ensures x in sorted <==> x in queue || x == childId {
        assert x in sorted <==> x in Shown(sorted);
        assert x in queue + [childId] <==> x in Shown(queue + [childId]);
      }
    }

    /** The posts in the order they are displayed. */
    method GetSortedPosts() returns (result: seq<Post>)
      requires WellKeyed(nodes)
      ensures IdsOf(result) == Canon(nodes, {})
      ensures forall post :: post in result ==> post.packetId in nodes && nodes[post.packetId] == post
      ensures IsByTime(nodes, result)
    {
      hide Before, Ready, Pending, Canon, Settled, InOrder, DegreesAre, ChildrenListed, Releasing, QueueIs,
        IsByTime;
      var inDegree, childrenMap := CountDegrees();
      ghost var done: set<string> := {};
      var queue := FirstQueue(inDegree);
      result := [];
      SettledAtFirst(nodes);
      while queue != []
        invariant DegreesAre(nodes, inDegree, done) && Settled(nodes, done)
        invariant InOrder(nodes, queue) && Shown(queue) == Ready(nodes, done)
        invariant IdsOf(result) + Canon(nodes, done) == Canon(nodes, {})
        invariant forall post :: post in result ==> post.packetId in nodes && nodes[post.packetId] == post
        decreases |nodes.Keys - done|
      {
        var currentId := queue[0];
        HeadIsLeast(nodes, queue);
        ShowHead(nodes, done, currentId);
        GoesOn(result, nodes, done, currentId);
        result := result + [nodes[currentId]];
        var children := ChildrenOf(childrenMap, currentId);
        ChildrenAre(nodes, childrenMap, currentId);
        ReleaseStart(nodes, done, currentId, inDegree, queue, queue[1..]);
        inDegree, queue := Release(done, currentId, children, inDegree, queue[1..]);
        SettledAfter(nodes, done, currentId);
        done := done + {currentId};
      }
      NothingLeft(nodes, done);
      ShownByTime(nodes, result);
    }

    method FirstQueue(inDegree: map<string, int>) returns (queue: seq<string>)
      requires WellKeyed(nodes) && DegreesAre(nodes, inDegree, {})
      ensures InOrder(nodes, queue) && Shown(queue) == Ready(nodes, {})
    {
      hide Before, InOrder, Pending, Ready;
      var left, q := nodes.Keys, [];
      while left != {}
        invariant left <= nodes.Keys
        invariant forall x :: x in q <==> x in nodes && x !in left && inDegree[x] == 0
        invariant forall i, j :: 0 <= i < j < |q| ==> q[i] != q[j]
        decreases |left|
      {
        var id :| id in left;
        if inDegree[id] == 0 { q := q + [id]; }
        left := left - {id};
      }
      queue := Sort(nodes, q);
      forall x ensures x in Shown(q) <==> x in Ready(nodes, {}) {
        ReadyIsPendingZero(nodes, {}, x);
      }
    }

    /** The largest cumulative work, or zero. */
    method GetMaxCumulativePow() returns (max: int)
      ensures IsMaxPow(nodes, max)
    {
      max := 0;
      var left := nodes.Keys;
      while left != {}
        invariant left <= nodes.Keys && max >= 0
        invariant forall id :: id in nodes && id !in left ==> nodes[id].cumulativePow <= max
        invariant max == 0 || exists id :: id in nodes && nodes[id].cumulativePow == max
        decreases |left|
      {
        var id :| id in left;
        if nodes[id].cumulativePow > max { max := nodes[id].cumulativePow; }
        left := left - {id};
      }
    }

    /** Parents for a new reply: the first two childless posts by work and time, ties in order of arrival. */
    method GetTips() returns (tips: seq<string>)
      requires Arrived(nodes, arrival)
      ensures AreTips(nodes, tips) && TiesByArrival(nodes, arrival, tips)
      ensures BestByWork(nodes, tips)
    {
      hide Ahead;
      var hasChildren := NamedAsParent();
      var sorted: seq<string> := [];
      for i := 0 to |arrival|
        invariant RanksTips(nodes, arrival, sorted)
        invariant forall x :: x in sorted <==> x in arrival[..i] && x !in hasChildren
      {
        assert arrival[..i + 1] == arrival[..i] + [arrival[i]];
        if arrival[i] !in hasChildren { sorted := InsertTip(sorted, i); }
      }
      assert arrival[..|arrival|] == arrival;
      tips := sorted[..if |sorted| < MAX_TIPS then |sorted| else MAX_TIPS];
      FirstTwoAreTips(nodes, arrival, sorted, tips);
      TipsAreBest(nodes, tips);
    }

    method NamedAsParent() returns (hasChildren: set<string>)
      ensures forall x :: x in nodes ==> (x in hasChildren <==> !IsChildless(nodes, x))
    {
      hasChildren := {};
      var left := nodes.Keys;
      while left != {}
        invariant left <= nodes.Keys
        invariant forall x :: x in hasChildren <==> exists c :: c in nodes && c !in left && x in nodes[c].parents
        decreases |left|
      {
        var c :| c in left;
        hasChildren := hasChildren + (set p | p in nodes[c].parents);
        left := left - {c};
      }
    }

    /** One step of sorting the tips. */
    method InsertTip(sorted: seq<string>, n: nat) returns (more: seq<string>)
      requires Arrived(nodes, arrival) && RanksTips(nodes, arrival, sorted) && n < |arrival|
      requires forall x :: x in sorted ==> x in arrival[..n]
      ensures RanksTips(nodes, arrival, more) && forall x :: x in more <==> x in sorted || x == arrival[n]
    {
      hide Ahead;
      var k := 0;
      while k < |sorted| && !Preferred(nodes, arrival[n], sorted[k])
        invariant k <= |sorted| && forall i :: 0 <= i < k ==> !Preferred(nodes, arrival[n], sorted[i])
      {
        k := k + 1;
      }
      more := sorted[..k] + [arrival[n]] + sorted[k..];
      RankedWith(nodes, arrival, sorted, n, k);
    }
  }

  /** Every registered parent of the post is among these. */
  ghost predicate ParentsWithin(nodes: Posts, post: Post, shown: seq<Post>) {
    forall p :: p in nodes && p in post.parents ==> exists k :: 0 <= k < |shown| && shown[k].packetId == p
  }

  /**
   * A post could have been shown already, as all its registered parents were, in place of an earlier one: then it comes
   * later by time, or by id at the same time. Times have at most 15 digits.
   */
  ghost predicate IsByTime(nodes: Posts, shown: seq<Post>) {
    forall i, j :: 0 <= i < j < |shown| && ParentsWithin(nodes, shown[j], shown[..i]) ==>
      var a, b := shown[i], shown[j];
      a.createdAt < 1_000_000_000_000_000 && b.createdAt < 1_000_000_000_000_000 ==>
        a.createdAt < b.createdAt || (a.createdAt == b.createdAt && StrLt(a.packetId, b.packetId))
  }

  lemma ShownByTime(nodes: Posts, result: seq<Post>)
    requires WellKeyed(nodes) && IdsOf(result) == Canon(nodes, {})
    requires forall post :: post in result ==> post.packetId in nodes && nodes[post.packetId] == post
    ensures IsByTime(nodes, result)
  {
    hide Canon, StrLt, ParentsWithin;
    var s := Canon(nodes, {});
    forall i, j | 0 <= i < j < |result| && ParentsWithin(nodes, result[j], result[..i])
      && result[i].createdAt < 1_000_000_000_000_000 && result[j].createdAt < 1_000_000_000_000_000
      ensures result[i].createdAt < result[j].createdAt
        || (result[i].createdAt == result[j].createdAt && StrLt(result[i].packetId, result[j].packetId))
    {
      assert result[i] in result && result[j] in result;
      assert s[i] == result[i].packetId && s[j] == result[j].packetId;
      ParentsAreBefore(nodes, result, s, i, j);
      CanonIsByTime(nodes, {}, i, j);
    }
  }

  lemma ParentsAreBefore(nodes: Posts, result: seq<Post>, s: seq<string>, i: nat, j: nat)
    requires i < j < |result| == |s| && (forall k :: 0 <= k < |s| ==> s[k] == result[k].packetId)
    requires s[j] in nodes && nodes[s[j]] == result[j] && ParentsWithin(nodes, result[j], result[..i])
    ensures forall p :: p in nodes && p in nodes[s[j]].parents ==> p in s[..i]
  {
    forall p | p in nodes && p in nodes[s[j]].parents ensures p in s[..i] {
      var k :| 0 <= k < i && result[..i][k].packetId == p;
      assert s[..i][k] == p;
    }
  }

  /** The insertion order of the registered posts. */
  ghost predicate Arrived(nodes: Posts, arrival: seq<string>) {
    && (forall i, j :: 0 <= i < j < |arrival| ==> arrival[i] != arrival[j])
    && forall x :: x in arrival <==> x in nodes
  }

  ghost predicate Earlier(arrival: seq<string>, a: string, b: string) {
    exists i, j :: 0 <= i < j < |arrival| && arrival[i] == a && arrival[j] == b
  }

  /** a is preferred to b, or arrived before it and b is not preferred. */
  ghost predicate Ahead(nodes: Posts, arrival: seq<string>, a: string, b: string) {
    && a in nodes && b in nodes
    && (Preferred(nodes, a, b) || (!Preferred(nodes, b, a) && Earlier(arrival, a, b)))
  }

  /** The tips stand in order, and before every childless post that is none. */
  ghost predicate TiesByArrival(nodes: Posts, arrival: seq<string>, tips: seq<string>) {
    && (forall i, j :: 0 <= i < j < |tips| ==> Ahead(nodes, arrival, tips[i], tips[j]))
    && forall x, t :: IsChildless(nodes, x) && x !in tips && t in tips ==> Ahead(nodes, arrival, t, x)
  }

  /** Without repeats, and everything stands ahead of what comes after it. */
  ghost predicate RanksTips(nodes: Posts, arrival: seq<string>, s: seq<string>) {
    && (forall x :: x in s ==> x in nodes)
    && (forall i, j :: 0 <= i < j < |s| ==> s[i] != s[j] && Ahead(nodes, arrival, s[i], s[j]))
  }

  lemma AheadMeans(nodes: Posts, arrival: seq<string>, a: string, b: string)
    requires Ahead(nodes, arrival, a, b)
    ensures a in nodes && b in nodes && !Preferred(nodes, b, a)
  {
  }

  lemma AheadOfPreferred(nodes: Posts, arrival: seq<string>, a: string, b: string, c: string)
    requires a in nodes && b in nodes && Preferred(nodes, a, b) && (c == b || Ahead(nodes, arrival, b, c))
    ensures Ahead(nodes, arrival, a, c)
  {
  }

  lemma LaterIsBehind(nodes: Posts, arrival: seq<string>, n: nat, a: string)
    requires Arrived(nodes, arrival) && n < |arrival| && a in arrival[..n] && a in nodes
    requires arrival[n] in nodes && !Preferred(nodes, arrival[n], a)
    ensures a != arrival[n] && Ahead(nodes, arrival, a, arrival[n])
  {
    var i :| 0 <= i < n && arrival[..n][i] == a;
    assert arrival[i] == a;
  }

  lemma RankedWith(nodes: Posts, arrival: seq<string>, s: seq<string>, n: nat, k: nat)
    requires Arrived(nodes, arrival) && RanksTips(nodes, arrival, s) && n < |arrival| && k <= |s|
    requires forall x :: x in s ==> x in arrival[..n]
    requires forall i :: 0 <= i < k ==> !Preferred(nodes, arrival[n], s[i])
    requires k < |s| ==> Preferred(nodes, arrival[n], s[k])
    ensures var more := s[..k] + [arrival[n]] + s[k..];
      RanksTips(nodes, arrival, more) && forall x :: x in more <==> x in s || x == arrival[n]
  {
    hide Ahead, Preferred;
    var id, more := arrival[n], s[..k] + [arrival[n]] + s[k..];
    assert s == s[..k] + s[k..];
    assert id !in arrival[..n];
    forall i, j | 0 <= i < j < |more| ensures more[i] != more[j] && Ahead(nodes, arrival, more[i], more[j]) {
      var i', j' := if i <= k then i else i - 1, if j <= k then j else j - 1;
      assert i != k ==> more[i] == s[i'];
      assert j != k ==> more[j] == s[j'];
      if j == k { LaterIsBehind(nodes, arrival, n, s[i]); }
      if i == k { AheadOfPreferred(nodes, arrival, id, s[k], s[j']); }
    }
  }

  lemma FirstTwoAreTips(nodes: Posts, arrival: seq<string>, s: seq<string>, tips: seq<string>)
    requires RanksTips(nodes, arrival, s) && forall x :: x in s <==> IsChildless(nodes, x)
    requires tips == s[..if |s| < MAX_TIPS then |s| else MAX_TIPS]
    ensures AreTips(nodes, tips) && TiesByArrival(nodes, arrival, tips)
  {
    hide Preferred, Ahead;
    assert forall k :: 0 <= k < |tips| ==> tips[k] == s[k] && s[k] in tips;
    forall i, j | 0 <= i < j < |s| ensures s[i] in nodes && s[j] in nodes && !Preferred(nodes, s[j], s[i]) {
      AheadMeans(nodes, arrival, s[i], s[j]);
    }
    forall x, t | IsChildless(nodes, x) && x !in tips && t in tips
      ensures Ahead(nodes, arrival, t, x) && !Preferred(nodes, x, t)
    {
      var i :| 0 <= i < |tips| && tips[i] == t;
      var j :| 0 <= j < |s| && s[j] == x;
    }
  }

  /** The first post with an id counts; posts of other threads do not. */
  function Add(threadId: string, nodes: Posts, post: Post): Posts {
    if post.packetId in nodes || post.threadId != threadId then nodes else nodes[post.packetId := post]
  }

  function AddAll(threadId: string, nodes: Posts, posts: seq<Post>): Posts
    decreases |posts|
  {
    if posts == [] then nodes else AddAll(threadId, Add(threadId, nodes, posts[0]), posts[1..])
  }

  lemma {:induction false} WhatIsAdded(threadId: string, nodes: Posts, posts: seq<Post>, id: string)
    ensures var all := AddAll(threadId, nodes, posts);
      && (id in nodes ==> id in all && all[id] == nodes[id])
      && (id in all <==> id in nodes || exists p :: p in posts && p.packetId == id && p.threadId == threadId)
      && (id in all && id !in nodes ==> all[id] in posts && all[id].packetId == id && all[id].threadId == threadId)
    decreases |posts|
  {
    if posts != [] {
      WhatIsAdded(threadId, Add(threadId, nodes, posts[0]), posts[1..], id);
      assert posts == [posts[0]] + posts[1..];
    }
  }

  /** Two posts of the thread with the same packet id are the same post, as packet ids are hashes. */
  ghost predicate Consistent(threadId: string, posts: seq<Post>) {
    forall p, q :: p in posts && q in posts && p.threadId == q.threadId == threadId && p.packetId == q.packetId ==> p == q
  }

  /** Two readers who received the same posts, in any order and any number of times, display the same thread. */
  lemma ArrivalOrderDoesNotMatter(threadId: string, posts: seq<Post>, posts': seq<Post>)
    requires Consistent(threadId, posts) && forall p :: p in posts <==> p in posts'
    ensures var a, b := AddAll(threadId, map[], posts), AddAll(threadId, map[], posts');
      a == b && WellKeyed(a) && Canon(a, {}) == Canon(b, {})
  {
    hide AddAll, Canon;
    var a, b := AddAll(threadId, map[], posts), AddAll(threadId, map[], posts');
    forall id ensures (id in a <==> id in b) && (id in a ==> a[id] == b[id] && a[id].packetId == id) {
      WhatIsAdded(threadId, map[], posts, id);
      WhatIsAdded(threadId, map[], posts', id);
    }
    assert a == b;
  }

  /** With two different posts under one id, the one that comes first stays. */
  lemma FirstArrivalStays(threadId: string, posts: seq<Post>, p: Post, q: Post)
    requires p in posts && q in posts && p != q && p.packetId == q.packetId && p.threadId == q.threadId == threadId
    ensures AddAll(threadId, map[], [p] + posts) != AddAll(threadId, map[], [q] + posts)
  {
    forall x | x == p || x == q ensures x.packetId in AddAll(threadId, map[], [x] + posts)
      && AddAll(threadId, map[], [x] + posts)[x.packetId] == x
    {
      assert ([x] + posts)[1..] == posts;
      WhatIsAdded(threadId, Add(threadId, map[], x), posts, x.packetId);
    }
  }
}
