/** The cache of packet ids a node has seen: a map in insertion order, bounded in size and swept by age. */
module SeenPackets {

  const TTL_MS := 15 * 60 * 1000

  datatype Entry = Entry(id: string, at: int)

  function Has(cache: seq<Entry>, id: string): bool {
    exists i :: 0 <= i < |cache| && cache[i].id == id
  }

  /** Ids are distinct, and later entries are no older. */
  ghost predicate IsCache(cache: seq<Entry>) {
    && (forall i, j :: 0 <= i < j < |cache| ==> cache[i].id != cache[j].id)
    && (forall i, j :: 0 <= i < j < |cache| ==> cache[i].at <= cache[j].at)
  }

  /** A new id goes to the end; if that is one too many the oldest goes, unless its id is the empty string. */
  function Added(cache: seq<Entry>, id: string, now: int, maxSize: nat): seq<Entry> {
    if Has(cache, id) then cache else
      var grown := cache + [Entry(id, now)];
      if |grown| > maxSize && grown[0].id != "" then grown[1..] else grown
  }

  /** The sweep stops at the first entry that is young enough. */
  function Swept(cache: seq<Entry>, now: int): (rest: seq<Entry>)
    ensures |rest| <= |cache| && rest == cache[|cache| - |rest|..]
  {
    if cache == [] then []
    else if now - cache[0].at > TTL_MS then Swept(cache[1..], now)
    else cache
  }

  /** In an ordered cache stopping there misses nothing: what stays is exactly what is young enough. */
  lemma {:induction false} SweptExactly(cache: seq<Entry>, now: int, e: Entry)
    requires IsCache(cache)
    ensures e in Swept(cache, now) <==> e in cache && now - e.at <= TTL_MS
    ensures IsCache(Swept(cache, now))
    decreases |cache|
  {
    if cache != [] {
      assert cache == [cache[0]] + cache[1..];
      if now - cache[0].at > TTL_MS { SweptExactly(cache[1..], now, e); }
    }
  }

  lemma SweptAll(cache: seq<Entry>, now: int)
    requires IsCache(cache)
    ensures IsCache(Swept(cache, now)) && forall e :: e in Swept(cache, now) <==> e in cache && now - e.at <= 900_000
  {
    hide IsCache, Swept;
    forall e ensures e in Swept(cache, now) <==> e in cache && now - e.at <= 900_000 {
      SweptExactly(cache, now, e);
    }
    SweptExactly(cache, now, Entry("", 0));
  }

  lemma SweepStops(cache: seq<Entry>, now: int)
    ensures cache != [] && now - cache[0].at > TTL_MS ==> Swept(cache, now) == Swept(cache[1..], now)
    ensures cache == [] || now - cache[0].at <= TTL_MS ==> Swept(cache, now) == cache
  {
  }

  datatype Event = Add(id: string, now: int) | Sweep(now: int)

  function Step(cache: seq<Entry>, event: Event, maxSize: nat): seq<Entry> {
    match event
    case Add(id, now) => Added(cache, id, now, maxSize)
    case Sweep(now) => Swept(cache, now)
  }

  function After(cache: seq<Entry>, events: seq<Event>, maxSize: nat): seq<Entry> {
    if events == [] then cache else Step(After(cache, events[..|events| - 1], maxSize), events[|events| - 1], maxSize)
  }

  predicate IsNew(cache: seq<Entry>, event: Event) {
    event.Add? && !Has(cache, event.id)
  }

  /** How many ids an event run brings in that were not in the cache when they came. */
  function NewIds(cache: seq<Entry>, events: seq<Event>, maxSize: nat): nat {
    if events == [] then 0 else
      var before := events[..|events| - 1];
      NewIds(cache, before, maxSize) + if IsNew(After(cache, before, maxSize), events[|events| - 1]) then 1 else 0
  }

  /** The clock does not go back. */
  ghost predicate Timely(cache: seq<Entry>, events: seq<Event>) {
    && (forall i, j :: 0 <= i < j < |events| ==> events[i].now <= events[j].now)
    && (forall i, k :: 0 <= i < |events| && 0 <= k < |cache| ==> cache[k].at <= events[i].now)
  }

  /** Every sweep of the run comes in time for an entry of this age. */
  ghost predicate InTime(events: seq<Event>, at: int) {
    forall i :: 0 <= i < |events| && events[i].Sweep? ==> events[i].now - at <= TTL_MS
  }

  lemma AddedIsCache(cache: seq<Entry>, id: string, now: int, maxSize: nat)
    requires IsCache(cache) && forall k :: 0 <= k < |cache| ==> cache[k].at <= now
    ensures IsCache(Added(cache, id, now, maxSize))
    ensures forall k :: 0 <= k < |Added(cache, id, now, maxSize)| ==> Added(cache, id, now, maxSize)[k].at <= now
  {
  }

  lemma LastEvent(cache: seq<Entry>, events: seq<Event>, e: Event, maxSize: nat)
    ensures After(cache, events + [e], maxSize) == Step(After(cache, events, maxSize), e, maxSize)
    ensures NewIds(cache, events + [e], maxSize) ==
      NewIds(cache, events, maxSize) + if IsNew(After(cache, events, maxSize), e) then 1 else 0
  {
    assert (events + [e])[..|events|] == events;
  }

  /** A run can be cut anywhere. */
  lemma {:induction false} AfterBoth(cache: seq<Entry>, first: seq<Event>, second: seq<Event>, maxSize: nat)
    ensures After(cache, first + second, maxSize) == After(After(cache, first, maxSize), second, maxSize)
  {
    hide Step, NewIds;
    if second == [] {
      assert first + second == first;
    } else {
      var rest, e := second[..|second| - 1], second[|second| - 1];
      AfterBoth(cache, first, rest, maxSize);
      assert first + second == first + rest + [e];
      LastEvent(cache, first + rest, e, maxSize);
    }
  }

  /** A run keeps the cache in order. */
  lemma {:induction false} AfterIsCache(cache: seq<Entry>, events: seq<Event>, maxSize: nat)
    requires IsCache(cache) && Timely(cache, events)
    ensures IsCache(After(cache, events, maxSize))
    ensures events != [] ==> forall e :: e in After(cache, events, maxSize) ==> e.at <= events[|events| - 1].now
  {
    if events != [] {
      var rest, last := events[..|events| - 1], events[|events| - 1];
      AfterIsCache(cache, rest, maxSize);
      var before := After(cache, rest, maxSize);
      forall e | e in before ensures e.at <= last.now {
        if rest != [] { assert e.at <= rest[|rest| - 1].now; }
      }
      match last
      case Add(id, now) => AddedIsCache(before, id, now, maxSize);
      case Sweep(now) => if before != [] { SweptExactly(before, now, before[0]); }
    }
  }

  /** One step moves an entry by as many places as new ids push in behind it and old ones leave before it. */
  lemma StepMoves(cache: seq<Entry>, event: Event, maxSize: nat, k: nat) returns (k': nat)
    requires IsCache(cache) && k < |cache|
    requires cache[k].id == "" || |cache| - k + (if IsNew(cache, event) then 1 else 0) <= maxSize
    requires event.Sweep? ==> event.now - cache[k].at <= TTL_MS
    ensures var next := Step(cache, event, maxSize);
      k' < |next| && next[k'] == cache[k] && |next| - k' == |cache| - k + if IsNew(cache, event) then 1 else 0
  {
    match event
    case Add(id, now) =>
      k' := if !IsNew(cache, event) || |Added(cache, id, now, maxSize)| == |cache| + 1 then k else k - 1;
    case Sweep(now) =>
      SweepStays(cache, now, k);
      k' := k - (|cache| - |Swept(cache, now)|);
  }

  lemma {:induction false} SweepStays(cache: seq<Entry>, now: int, k: nat)
    requires IsCache(cache) && k < |cache| && now - cache[k].at <= TTL_MS
    ensures var gone := |cache| - |Swept(cache, now)|; gone <= k && Swept(cache, now)[k - gone] == cache[k]
  {
    if now - cache[0].at > TTL_MS { SweepStays(cache[1..], now, k - 1); }
  }

  /**
   * An entry stays until as many new ids have come in as there are places from it to the end of a full cache, or until a
   * sweep comes too late for it; the empty id stays whatever else comes in. Meanwhile nothing behind it leaves.
   */
  lemma {:induction false} EntryStays(cache: seq<Entry>, events: seq<Event>, maxSize: nat, k: nat) returns (k': nat)
    requires IsCache(cache) && Timely(cache, events) && k < |cache| && InTime(events, cache[k].at)
    requires cache[k].id == "" || NewIds(cache, events, maxSize) <= maxSize - (|cache| - k)
    ensures var after := After(cache, events, maxSize);
      k' < |after| && after[k'] == cache[k] && |after| - k' == |cache| - k + NewIds(cache, events, maxSize)
  {
    if events == [] {
      k' := k;
    } else {
      var rest, last := events[..|events| - 1], events[|events| - 1];
      var before := EntryStays(cache, rest, maxSize, k);
      AfterIsCache(cache, rest, maxSize);
      k' := StepMoves(After(cache, rest, maxSize), last, maxSize, before);
    }
  }

  /** Freshly added to a cache within its bound, an id outlives the next maxSize - 1 new ones. */
  lemma AddedIdStays(cache: seq<Entry>, id: string, now: int, events: seq<Event>, maxSize: nat)
    requires IsCache(cache) && |cache| <= maxSize && maxSize > 1 && !Has(cache, id)
    requires Timely(cache, [Add(id, now)] + events)
    requires NewIds(Added(cache, id, now, maxSize), events, maxSize) <= maxSize - 1
    requires InTime(events, now)
    ensures Entry(id, now) in After(Added(cache, id, now, maxSize), events, maxSize)
  {
    hide After, NewIds, InTime;
    var all, next := [Add(id, now)] + events, Added(cache, id, now, maxSize);
    assert all[0] == Add(id, now) && forall i :: 0 <= i < |events| ==> events[i] == all[i + 1];
    AddedIsCache(cache, id, now, maxSize);
    assert next[|next| - 1] == Entry(id, now);
    assert Timely(next, events);
    var k := EntryStays(next, events, maxSize, |next| - 1);
  }

  // The bound on the size

  /** As long as no id is empty the cache stays within its bound. */
  lemma {:induction false} BoundedWithoutEmptyIds(events: seq<Event>, maxSize: nat)
    requires forall i :: 0 <= i < |events| && events[i].Add? ==> events[i].id != ""
    ensures |After([], events, maxSize)| <= maxSize && !Has(After([], events, maxSize), "")
  {
    if events != [] {
      BoundedWithoutEmptyIds(events[..|events| - 1], maxSize);
    }
  }

  /** From the empty cache, the events before the n-th. */
  function Until(events: seq<Event>, n: nat, maxSize: nat): seq<Entry>
    requires n <= |events|
  {
    After([], events[..n], maxSize)
  }

  /** The entry was new with event j, no sweep since came too late for it, and these ids came in behind it. */
  ghost predicate CameWith(events: seq<Event>, j: nat, n: nat, maxSize: nat, e: Entry, behind: nat) {
    && j < n <= |events| && events[j] == Add(e.id, e.at) && IsNew(Until(events, j, maxSize), events[j])
    && InTime(events[j + 1..n], e.at) && behind == NewIds(Until(events, j + 1, maxSize), events[j + 1..n], maxSize)
  }

  ghost predicate ComesFrom(cache: seq<Entry>, next: seq<Entry>, event: Event, k0: nat, k: nat) {
    && k0 <= |cache| && k < |next| && (event.Sweep? ==> event.now - next[k].at <= TTL_MS)
    && |next| - k == |cache| - k0 + (if IsNew(cache, event) then 1 else 0)
    && if k0 < |cache| then cache[k0] == next[k] else IsNew(cache, event) && event == Add(next[k].id, next[k].at)
  }

  lemma AddFrom(cache: seq<Entry>, id: string, now: int, maxSize: nat, k: nat) returns (k0: nat)
    requires k < |Added(cache, id, now, maxSize)|
    ensures ComesFrom(cache, Added(cache, id, now, maxSize), Add(id, now), k0, k)
  {
    hide Has;
    k0 := if Has(cache, id) || |Added(cache, id, now, maxSize)| == |cache| + 1 then k else k + 1;
  }

  lemma SweepFrom(cache: seq<Entry>, now: int, k: nat) returns (k0: nat)
    requires IsCache(cache) && k < |Swept(cache, now)|
    ensures ComesFrom(cache, Swept(cache, now), Sweep(now), k0, k)
  {
    hide IsCache, Swept;
    var next := Swept(cache, now);
    k0 := k + (|cache| - |next|);
    assert next[k] in Swept(cache, now);
    SweptExactly(cache, now, next[k]);
  }

  /** Where an entry was before a step, or that it has just come in. */
  lemma StepFrom(cache: seq<Entry>, event: Event, maxSize: nat, k: nat) returns (k0: nat)
    requires IsCache(cache) && k < |Step(cache, event, maxSize)|
    ensures ComesFrom(cache, Step(cache, event, maxSize), event, k0, k)
  {
    hide ComesFrom, Added, Swept, IsCache;
    match event
    case Add(id, now) => k0 := AddFrom(cache, id, now, maxSize, k);
    case Sweep(now) => k0 := SweepFrom(cache, now, k);
  }

  lemma NextUntil(events: seq<Event>, n: nat, maxSize: nat)
    requires n < |events|
    ensures Until(events, n + 1, maxSize) == Step(Until(events, n, maxSize), events[n], maxSize)
  {
    assert events[..n + 1] == events[..n] + [events[n]];
    LastEvent([], events[..n], events[n], maxSize);
  }

  lemma UntilIsCache(events: seq<Event>, n: nat, maxSize: nat)
    requires n <= |events| && Timely([], events)
    ensures IsCache(Until(events, n, maxSize))
  {
    AfterIsCache([], events[..n], maxSize);
  }

  lemma UntilBoth(events: seq<Event>, j: nat, n: nat, maxSize: nat)
    requires j <= n <= |events|
    ensures After(Until(events, j, maxSize), events[j..n], maxSize) == Until(events, n, maxSize)
  {
    assert events[..n] == events[..j] + events[j..n];
    AfterBoth([], events[..j], events[j..n], maxSize);
  }

  lemma OneMoreBehind(events: seq<Event>, j: nat, n: nat, maxSize: nat, e: Entry, behind: nat)
    requires n < |events| && CameWith(events, j, n, maxSize, e, behind)
    requires events[n].Sweep? ==> events[n].now - e.at <= TTL_MS
    ensures CameWith(events, j, n + 1, maxSize, e, behind + if IsNew(Until(events, n, maxSize), events[n]) then 1 else 0)
  {
    hide After, IsNew;
    UntilBoth(events, j + 1, n, maxSize);
    assert events[j + 1..n + 1] == events[j + 1..n] + [events[n]];
    LastEvent(Until(events, j + 1, maxSize), events[j + 1..n], events[n], maxSize);
  }

  /** Whatever is in the cache came in with some event, and what is behind it came in later. */
  lemma {:induction false} EntryCameIn(events: seq<Event>, n: nat, maxSize: nat, k: nat) returns (j: nat)
    requires n <= |events| && Timely([], events) && k < |Until(events, n, maxSize)|
    ensures CameWith(events, j, n, maxSize, Until(events, n, maxSize)[k], |Until(events, n, maxSize)| - k - 1)
  {
    hide Step, IsNew, Timely, IsCache;
    NextUntil(events, n - 1, maxSize);
    UntilIsCache(events, n - 1, maxSize);
    var before := Until(events, n - 1, maxSize);
    var k0 := StepFrom(before, events[n - 1], maxSize, k);
    if k0 == |before| {
      j := n - 1;
      assert events[n..n] == [];
    } else {
      j := EntryCameIn(events, n - 1, maxSize, k0);
      OneMoreBehind(events, j, n - 1, maxSize, before[k0], |before| - k0 - 1);
    }
  }

  /** The empty id came in with event j, every sweep until n was in time for it, and maxSize new ids came in behind it. */
  ghost predicate Crowded(events: seq<Event>, j: nat, n: nat, maxSize: nat) {
    && j < n <= |events| && events[j].Add? && events[j].id == ""
    && var behind := NewIds(Until(events, j + 1, maxSize), events[j + 1..n], maxSize);
    behind >= maxSize && CameWith(events, j, n, maxSize, Entry("", events[j].now), behind)
  }

  lemma CrowdedIsTooMany(events: seq<Event>, j: nat, n: nat, maxSize: nat)
    requires Timely([], events) && Crowded(events, j, n, maxSize)
    ensures |Until(events, n, maxSize)| > maxSize
  {
    hide CameWith, InTime, IsCache, After;
    var behind := NewIds(Until(events, j + 1, maxSize), events[j + 1..n], maxSize);
    var after := CameLast(events, j, n, maxSize, Entry("", events[j].now), behind);
    UntilIsCache(events, j + 1, maxSize);
    StillTimely(events, j + 1, n, maxSize);
    UntilBoth(events, j + 1, n, maxSize);
    var k := EntryStays(after, events[j + 1..n], maxSize, |after| - 1);
  }

  lemma CameLast(events: seq<Event>, j: nat, n: nat, maxSize: nat, e: Entry, behind: nat) returns (after: seq<Entry>)
    requires CameWith(events, j, n, maxSize, e, behind) && e.id == ""
    ensures after == Until(events, j + 1, maxSize) && after != [] && after[|after| - 1] == e
    ensures InTime(events[j + 1..n], e.at) && behind == NewIds(after, events[j + 1..n], maxSize)
  {
    after := Until(events, j + 1, maxSize);
    NextUntil(events, j, maxSize);
  }

  lemma StillTimely(events: seq<Event>, j: nat, n: nat, maxSize: nat)
    requires j <= n <= |events| && Timely([], events)
    ensures Timely(Until(events, j, maxSize), events[j..n])
  {
    AfterIsCache([], events[..j], maxSize);
  }

  lemma {:induction false} TooManyIsCrowded(events: seq<Event>, n: nat, maxSize: nat) returns (j: nat, m: nat)
    requires Timely([], events) && n <= |events| && |Until(events, n, maxSize)| > maxSize
    ensures Crowded(events, j, m, maxSize)
  {
    hide CameWith, Timely;
    NextUntil(events, n - 1, maxSize);
    if |Until(events, n - 1, maxSize)| > maxSize {
      j, m := TooManyIsCrowded(events, n - 1, maxSize);
    } else {
      j := EntryCameIn(events, n, maxSize, 0);
      m := n;
      CameMeans(events, j, n, maxSize, Until(events, n, maxSize)[0], |Until(events, n, maxSize)| - 1);
    }
  }

  lemma CameMeans(events: seq<Event>, j: nat, n: nat, maxSize: nat, e: Entry, behind: nat)
    requires CameWith(events, j, n, maxSize, e, behind)
    ensures j < n <= |events| && events[j] == Add(e.id, e.at)
    ensures behind == NewIds(Until(events, j + 1, maxSize), events[j + 1..n], maxSize)
  {
  }

  /**
   * A run outgrows the bound exactly if the empty id comes in and maxSize new ids follow before a sweep comes too late
   * for it: as the oldest id it is never the one to go.
   */
  lemma BoundBrokenIff(events: seq<Event>, maxSize: nat)
    requires Timely([], events)
    ensures (exists n: nat :: n <= |events| && |Until(events, n, maxSize)| > maxSize)
      <==> exists j, n :: Crowded(events, j, n, maxSize)
  {
    hide Crowded, Until, Timely;
    if n: nat :| n <= |events| && |Until(events, n, maxSize)| > maxSize {
      var j, m := TooManyIsCrowded(events, n, maxSize);
    }
    if j, n :| Crowded(events, j, n, maxSize) {
      CrowdedIsTooMany(events, j, n, maxSize);
      CrowdedIsWithin(events, j, n, maxSize);
    }
  }

  lemma CrowdedIsWithin(events: seq<Event>, j: nat, n: nat, maxSize: nat)
    requires Crowded(events, j, n, maxSize)
    ensures n <= |events|
  {
  }

  function Letters(n: nat): (id: string)
    ensures |id| == n
  {
    seq(n, _ => 'a')
  }

  /** Ids of length 0, 1, 2 and so on. */
  ghost predicate CountsUp(cache: seq<Entry>) {
    forall i :: 0 <= i < |cache| ==> |cache[i].id| == i
  }

  lemma AddedLetters(cache: seq<Entry>, n: nat, maxSize: nat)
    requires |cache| == n && CountsUp(cache)
    ensures var next := Step(cache, Add(Letters(n), 0), maxSize); |next| == n + 1 && CountsUp(next)
  {
    assert !Has(cache, Letters(n));
  }

  /** The empty id, then n others, all at once. */
  function EmptyFirst(n: nat): seq<Event> {
    (if n == 0 then [] else EmptyFirst(n - 1)) + [Add(Letters(n), 0)]
  }

  /** So an empty id breaks every bound: after it nothing is dropped any more. */
  lemma {:induction false} EmptyIdBreaksTheBound(n: nat, maxSize: nat)
    ensures |After([], EmptyFirst(n), maxSize)| == n + 1 && CountsUp(After([], EmptyFirst(n), maxSize))
  {
    hide Step, Letters, CountsUp, NewIds, After;
    var before := if n == 0 then [] else EmptyFirst(n - 1);
    if n > 0 { EmptyIdBreaksTheBound(n - 1, maxSize); } else { NoEvents(maxSize); }
    LastEvent([], before, Add(Letters(n), 0), maxSize);
    AddedLetters(After([], before, maxSize), n, maxSize);
  }

  lemma NoEvents(maxSize: nat)
    ensures After([], [], maxSize) == [] && CountsUp([])
  {
  }

  class SeenCache {
    const maxSize: nat
    var cache: seq<Entry>

    constructor (maxSize: nat)
      ensures this.maxSize == maxSize && cache == [] && IsCache(cache)
    {
      this.maxSize, cache := maxSize, [];
    }

    method Contains(id: string) returns (found: bool)
      ensures found <==> Has(cache, id)
    {
      found := false;
      for i := 0 to |cache|
        invariant found <==> exists k :: 0 <= k < i && cache[k].id == id
      {
        if cache[i].id == id { found := true; }
      }
    }

    method AddId(id: string, now: int)
      requires IsCache(cache) && forall k :: 0 <= k < |cache| ==> cache[k].at <= now
      modifies this
      ensures cache == Added(old(cache), id, now, maxSize) && IsCache(cache)
    {
      AddedIsCache(cache, id, now, maxSize);
      var known := Contains(id);
      if known { return; }
      cache := cache + [Entry(id, now)];
      if |cache| > maxSize {
        var oldestKey := cache[0].id;
        if oldestKey != "" { cache := cache[1..]; }
      }
    }

    /** Delete from the front and break at the first entry within the time to live. */
    method Cleanup(now: int)
      requires IsCache(cache)
      modifies this
      ensures cache == Swept(old(cache), now) && IsCache(cache)
      ensures forall e :: e in cache <==> e in old(cache) && now - e.at <= 900_000
    {
      hide IsCache, Swept;
      ghost var before := cache;
      SweptAll(before, now);
      SweepStops(before, now);
      while cache != [] && now - cache[0].at > TTL_MS
        invariant Swept(cache, now) == Swept(before, now)
        decreases |cache|
      {
        SweepStops(cache, now);
        cache := cache[1..];
      }
      SweepStops(cache, now);
    }
  }
}
