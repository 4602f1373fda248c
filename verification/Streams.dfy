/** The stream scheduler: a stream per node, and an event pair per cross-stream dependency. */
module Streams {
  import opened Wrappers

  type Port = nat

  datatype SyncEvent = SyncEvent(eventID: int, streamID: int, wait: bool)

  datatype Node = Node(inputs: seq<Port>, outputs: seq<Port>, id: int, streamID: int, barriers: seq<SyncEvent>)

  /** The first node that writes each port. */
  ghost predicate ProducerIndex(nodes: seq<Node>, producerOf: map<Port, int>) {
    && (forall p | p in producerOf ::
          && 0 <= producerOf[p] < |nodes| && p in nodes[producerOf[p]].outputs
          && forall j | 0 <= j < producerOf[p] :: p !in nodes[j].outputs)
    && (forall i, p | 0 <= i < |nodes| && p in nodes[i].outputs :: p in producerOf)
  }

  method BuildProducerIndex(nodes: seq<Node>) returns (producerOf: map<Port, int>)
    ensures ProducerIndex(nodes, producerOf)
  {
    producerOf := map[];
    for i := 0 to |nodes|
      invariant forall p | p in producerOf ::
        0 <= producerOf[p] < i && p in nodes[producerOf[p]].outputs && forall j | 0 <= j < producerOf[p] :: p !in nodes[j].outputs
      invariant forall j, p | 0 <= j < i && p in nodes[j].outputs :: p in producerOf
    {
      var outputs := nodes[i].outputs;
      for k := 0 to |outputs|
        invariant forall p | p in producerOf ::
          && 0 <= producerOf[p] <= i && p in nodes[producerOf[p]].outputs
          && forall j | 0 <= j < producerOf[p] :: p !in nodes[j].outputs
        invariant forall j, p | 0 <= j < i && p in nodes[j].outputs :: p in producerOf
        invariant forall q | 0 <= q < k :: outputs[q] in producerOf
      {
        if outputs[k] !in producerOf {
          producerOf := producerOf[outputs[k] := i];
        }
      }
    }
  }

  /** Node `j` produces one of the ports node `i` reads. */
  ghost predicate Feeds(nodes: seq<Node>, producerOf: map<Port, int>, j: int, i: int) {
    0 <= i < |nodes| && exists p | p in nodes[i].inputs :: p in producerOf && producerOf[p] == j
  }

  /** Nodes come after the producers of everything they read. */
  ghost predicate InOrder(nodes: seq<Node>, producerOf: map<Port, int>) {
    forall i, j | Feeds(nodes, producerOf, j, i) :: 0 <= j < i
  }

  /** For each stream a node depends on, the latest producer there. */
  ghost predicate PredecessorStreams(nodes: seq<Node>, producerOf: map<Port, int>, i: int, latest: map<int, int>) {
    && (forall j | Feeds(nodes, producerOf, j, i) && 0 <= j < |nodes| ::
          nodes[j].streamID in latest && nodes[j].id <= latest[nodes[j].streamID])
    && (forall t | t in latest ::
          exists j | 0 <= j < |nodes| :: Feeds(nodes, producerOf, j, i) && nodes[j].streamID == t && nodes[j].id == latest[t])
  }

  method CollectPredecessorStreams(nodes: seq<Node>, producerOf: map<Port, int>, i: nat) returns (latest: map<int, int>)
    requires i < |nodes| && ProducerIndex(nodes, producerOf)
    ensures PredecessorStreams(nodes, producerOf, i, latest)
  {
    latest := map[];
    var inputs := nodes[i].inputs;
    for k := 0 to |inputs|
      invariant forall q | 0 <= q < k && inputs[q] in producerOf ::
        var j := producerOf[inputs[q]];
        nodes[j].streamID in latest && nodes[j].id <= latest[nodes[j].streamID]
      invariant forall t | t in latest ::
        exists j | 0 <= j < |nodes| :: Feeds(nodes, producerOf, j, i) && nodes[j].streamID == t && nodes[j].id == latest[t]
    {
      if inputs[k] in producerOf {
        var j := producerOf[inputs[k]];
        assert Feeds(nodes, producerOf, j, i);
        var producer := nodes[j];
        if producer.streamID !in latest || producer.id > latest[producer.streamID] {
          latest := latest[producer.streamID := producer.id];
        }
      }
    }
  }

  /** The stream rule, over the streams the node depends on and what was assigned so far. */
  ghost predicate Picked(latest: map<int, int>, lastOn: map<int, int>, next: int, cap: int, stream: int, nextAfter: int) {
    if latest == map[] then
      if next < cap then stream == next && nextAfter == next + 1 else stream == 0 && nextAfter == next
    else if |latest| == 1 then
      exists t | t in latest ::
        if t in lastOn && lastOn[t] == latest[t] then stream == t && nextAfter == next
        else if next < cap then stream == next && nextAfter == next + 1
        else stream == t && nextAfter == next
    else
      stream in latest && nextAfter == next && forall t | t in latest :: stream <= t
  }

  lemma HasElement(ids: set<int>)
    ensures ids == {} || exists id :: id in ids
  {
    if forall id :: id !in ids {
      assert ids == {};
    }
  }

  method PickStream(latest: map<int, int>, lastOn: map<int, int>, next: int, cap: int) returns (stream: int, nextAfter: int)
    ensures Picked(latest, lastOn, next, cap, stream, nextAfter)
  {
    if |latest| == 0 {
      assert latest == map[];
      if next < cap {
        return next, next + 1;
      }
      return 0, next;
    }
    HasElement(latest.Keys);
    assert latest.Keys != {};
    var only :| only in latest.Keys;
    if |latest| == 1 {
      if only in lastOn && lastOn[only] == latest[only] {
        return only, next;
      }
      if next < cap {
        return next, next + 1;
      }
      return only, next;
    }
    var lowest := only;
    var pending := latest.Keys;
    while pending != {}
      invariant pending <= latest.Keys && lowest in latest
      invariant forall t | t in latest && t !in pending :: lowest <= t
    {
      HasElement(pending);
      var t :| t in pending;
      if t < lowest {
        lowest := t;
      }
      pending := pending - {t};
    }
    return lowest, next;
  }

  // ----- events

  /** One cross-stream dependency: event number k+1 for the k-th link. */
  datatype Link = Link(waiter: int, signaller: int, stream: int)

  /** The barriers node `i` carries for these links, in the order they were emitted. */
  ghost function Barriers(links: seq<Link>, i: int): seq<SyncEvent> {
    if links == [] then []
    else
      var k := |links| - 1;
      Barriers(links[..k], i)
      + (if links[k].waiter == i then [SyncEvent(k + 1, links[k].stream, true)] else [])
      + (if links[k].signaller == i then [SyncEvent(k + 1, links[k].stream, false)] else [])
  }

  ghost function LastOn(nodes: seq<Node>, n: nat, stream: int): int
    requires n <= |nodes|
  {
    if n == 0 then -1
    else if nodes[n - 1].streamID == stream then n - 1
    else LastOn(nodes, n - 1, stream)
  }

  /** One more than the highest stream in use among the first `n` nodes. */
  ghost function Opened(nodes: seq<Node>, n: nat): int
    requires n <= |nodes|
  {
    if n == 0 then 0
    else
      var before := Opened(nodes, n - 1);
      if nodes[n - 1].streamID >= before then nodes[n - 1].streamID + 1 else before
  }

  /** The streams of the first nodes decide which stream node `i` gets. */
  ghost predicate Chosen(nodes: seq<Node>, latest: map<int, int>, i: int, cap: int)
    requires 0 <= i < |nodes|
  {
    var next, stream := Opened(nodes, i), nodes[i].streamID;
    if latest == map[] then stream == if next < cap then next else 0
    else if |latest| == 1 then
      exists t | t in latest ::
        stream == if LastOn(nodes, i, t) + 1 == latest[t] then t else if next < cap then next else t
    else stream in latest && forall t | t in latest :: stream <= t
  }

  /** Node `i` has its ID, a stream below the cap, and that stream follows the rule. */
  ghost predicate Assigned(nodes: seq<Node>, producerOf: map<Port, int>, i: int, cap: int)
    requires 0 <= i < |nodes|
  {
    && nodes[i].id == i + 1 && 0 <= nodes[i].streamID < cap
    && exists latest :: PredecessorStreams(nodes, producerOf, i, latest) && Chosen(nodes, latest, i, cap)
  }

  /** A link joins the latest producer on another stream to its reader. */
  ghost predicate SoundLink(nodes: seq<Node>, producerOf: map<Port, int>, link: Link, limit: int) {
    && 0 <= link.signaller < link.waiter < limit <= |nodes|
    && Feeds(nodes, producerOf, link.signaller, link.waiter)
    && nodes[link.signaller].streamID == link.stream != nodes[link.waiter].streamID
    && forall j | Feeds(nodes, producerOf, j, link.waiter) && 0 <= j < |nodes| && nodes[j].streamID == link.stream ::
         j <= link.signaller
  }

  /** Every dependency of node `i` on another stream, but for those still pending, is behind a link. */
  ghost predicate Covered(nodes: seq<Node>, producerOf: map<Port, int>, links: seq<Link>, i: int, pending: set<int>)
    requires 0 <= i < |nodes|
  {
    forall j | Feeds(nodes, producerOf, j, i) && 0 <= j < |nodes|
               && nodes[j].streamID != nodes[i].streamID && nodes[j].streamID !in pending ::
      exists k | 0 <= k < |links| :: links[k].waiter == i && links[k].stream == nodes[j].streamID && j <= links[k].signaller
  }

  ghost predicate DistinctLinks(links: seq<Link>) {
    forall k, l | 0 <= k < l < |links| :: links[k].waiter != links[l].waiter || links[k].stream != links[l].stream
  }

  /** Only IDs, streams and barriers differ. */
  ghost predicate SameWiring(a: seq<Node>, b: seq<Node>) {
    |a| == |b| && forall i | 0 <= i < |a| :: a[i].inputs == b[i].inputs && a[i].outputs == b[i].outputs
  }

  /** The first `n` nodes agree on IDs and streams. */
  ghost predicate SameUpTo(a: seq<Node>, b: seq<Node>, n: int) {
    && SameWiring(a, b)
    && forall i | 0 <= i < n && i < |a| :: a[i].id == b[i].id && a[i].streamID == b[i].streamID
  }

  lemma FeedsSame(a: seq<Node>, b: seq<Node>, producerOf: map<Port, int>)
    requires SameWiring(a, b)
    ensures forall j, i :: Feeds(a, producerOf, j, i) <==> Feeds(b, producerOf, j, i)
    ensures InOrder(a, producerOf) <==> InOrder(b, producerOf)
    ensures ProducerIndex(a, producerOf) ==> ProducerIndex(b, producerOf)
  {
    forall j, i
      ensures Feeds(a, producerOf, j, i) <==> Feeds(b, producerOf, j, i)
    {
    }
  }

  lemma {:induction false} ScanSame(a: seq<Node>, b: seq<Node>, n: nat)
    requires n <= |a| && SameUpTo(a, b, n)
    ensures Opened(a, n) == Opened(b, n)
    ensures forall t :: LastOn(a, n, t) == LastOn(b, n, t)
  {
    if n > 0 {
      ScanSame(a, b, n - 1);
    }
  }

  lemma PredecessorsSame(a: seq<Node>, b: seq<Node>, producerOf: map<Port, int>, i: nat, latest: map<int, int>)
    requires i < |a| && SameUpTo(a, b, i) && InOrder(a, producerOf)
    ensures PredecessorStreams(a, producerOf, i, latest) ==> PredecessorStreams(b, producerOf, i, latest)
  {
    FeedsSame(a, b, producerOf);
    if PredecessorStreams(a, producerOf, i, latest) {
      forall t | t in latest
        ensures exists j | 0 <= j < |b| :: Feeds(b, producerOf, j, i) && b[j].streamID == t && b[j].id == latest[t]
      {
        var j :| 0 <= j < |a| && Feeds(a, producerOf, j, i) && a[j].streamID == t && a[j].id == latest[t];
        assert j < i;
      }
    }
  }

  /** What was settled for an earlier node is not disturbed by later assignments. */
  lemma AssignedSame(a: seq<Node>, b: seq<Node>, producerOf: map<Port, int>, i: nat, cap: int)
    requires i < |a| && SameUpTo(a, b, i + 1) && InOrder(a, producerOf) && Assigned(a, producerOf, i, cap)
    ensures Assigned(b, producerOf, i, cap)
  {
    var latest :| PredecessorStreams(a, producerOf, i, latest) && Chosen(a, latest, i, cap);
    PredecessorsSame(a, b, producerOf, i, latest);
    ScanSame(a, b, i);
    assert Chosen(b, latest, i, cap);
  }

  lemma LinkSame(a: seq<Node>, b: seq<Node>, producerOf: map<Port, int>, link: Link, limit: nat)
    requires SameUpTo(a, b, limit) && InOrder(a, producerOf) && SoundLink(a, producerOf, link, limit)
    ensures SoundLink(b, producerOf, link, limit)
  {
    FeedsSame(a, b, producerOf);
  }

  lemma CoveredSame(a: seq<Node>, b: seq<Node>, producerOf: map<Port, int>, links: seq<Link>, more: seq<Link>, i: nat, pending: set<int>)
    requires i < |a| && SameUpTo(a, b, i + 1) && InOrder(a, producerOf) && links <= more
    requires Covered(a, producerOf, links, i, pending)
    ensures Covered(b, producerOf, more, i, pending)
  {
    FeedsSame(a, b, producerOf);
    forall j | Feeds(b, producerOf, j, i) && 0 <= j < |b|
               && b[j].streamID != b[i].streamID && b[j].streamID !in pending
      ensures exists k | 0 <= k < |more| :: more[k].waiter == i && more[k].stream == b[j].streamID && j <= more[k].signaller
    {
      assert j < i;
      var k :| 0 <= k < |links| && links[k].waiter == i && links[k].stream == a[j].streamID && j <= links[k].signaller;
      assert more[k] == links[k];
    }
  }

  /** The first `n` nodes are scheduled, and the barriers everywhere are those of the links. */
  ghost predicate Settled(nodes: seq<Node>, producerOf: map<Port, int>, links: seq<Link>, n: int, cap: int) {
    && 0 <= n <= |nodes|
    && (forall i | 0 <= i < n :: Assigned(nodes, producerOf, i, cap) && Covered(nodes, producerOf, links, i, {}))
    && (forall k | 0 <= k < |links| :: SoundLink(nodes, producerOf, links[k], n))
    && DistinctLinks(links)
    && (forall i | 0 <= i < |nodes| :: nodes[i].barriers == Barriers(links, i))
    && (forall i | n <= i < |nodes| :: nodes[i].id == 0)
  }

  /** A topology as it comes out of the planner: no IDs, no barriers, producers first. */
  ghost predicate Fresh(nodes: seq<Node>, producerOf: map<Port, int>) {
    && ProducerIndex(nodes, producerOf) && InOrder(nodes, producerOf)
    && forall i | 0 <= i < |nodes| :: nodes[i].id == 0 && nodes[i].barriers == []
  }

  /** The schedule: every node settled, nothing but IDs, streams and barriers changed. */
  ghost predicate Scheduled(before: seq<Node>, after: seq<Node>, producerOf: map<Port, int>, links: seq<Link>, cap: int) {
    && SameWiring(before, after)
    && ProducerIndex(after, producerOf) && InOrder(after, producerOf)
    && Settled(after, producerOf, links, |after|, cap)
  }

  lemma StartSettled(nodes: seq<Node>, producerOf: map<Port, int>, cap: int)
    requires Fresh(nodes, producerOf)
    ensures Settled(nodes, producerOf, [], 0, cap)
  {
  }

  /** Node `n` has its ID and stream but not yet all of its links. */
  ghost predicate Settling(nodes: seq<Node>, producerOf: map<Port, int>, links: seq<Link>, n: int, cap: int, pending: set<int>) {
    && 0 <= n < |nodes|
    && (forall i | 0 <= i <= n :: Assigned(nodes, producerOf, i, cap))
    && (forall i | 0 <= i < n :: Covered(nodes, producerOf, links, i, {}))
    && Covered(nodes, producerOf, links, n, pending)
    && (forall k | 0 <= k < |links| :: SoundLink(nodes, producerOf, links[k], n + 1))
    && (forall k | 0 <= k < |links| && links[k].waiter == n :: links[k].stream !in pending)
    && DistinctLinks(links)
    && (forall i | 0 <= i < |nodes| :: nodes[i].barriers == Barriers(links, i))
    && (forall i | n < i < |nodes| :: nodes[i].id == 0)
  }

  /** Before any link of its own, a node's dependencies on other streams are all pending. */
  lemma AllPending(nodes: seq<Node>, producerOf: map<Port, int>, links: seq<Link>, n: nat, latest: map<int, int>)
    requires n < |nodes| && PredecessorStreams(nodes, producerOf, n, latest)
    ensures Covered(nodes, producerOf, links, n, latest.Keys)
  {
  }

  lemma AssignNode(nodes: seq<Node>, producerOf: map<Port, int>, links: seq<Link>, n: nat, cap: int,
                   latest: map<int, int>, stream: int)
    requires n < |nodes| && InOrder(nodes, producerOf) && Settled(nodes, producerOf, links, n, cap)
    requires PredecessorStreams(nodes, producerOf, n, latest) && 0 <= stream < cap
    requires var more := nodes[n := nodes[n].(id := n + 1, streamID := stream)]; Chosen(more, latest, n, cap)
    ensures var more := nodes[n := nodes[n].(id := n + 1, streamID := stream)];
      Settling(more, producerOf, links, n, cap, latest.Keys)
  {
    hide Barriers, Chosen, PredecessorStreams, Feeds, InOrder, Covered;
    var more := nodes[n := nodes[n].(id := n + 1, streamID := stream)];
    assert SameUpTo(nodes, more, n);
    PredecessorsSame(nodes, more, producerOf, n, latest);
    AllPending(more, producerOf, links, n, latest);
    assert Assigned(more, producerOf, n, cap);
    hide Assigned;
    forall i | 0 <= i < n
      ensures Assigned(more, producerOf, i, cap) && Covered(more, producerOf, links, i, {})
    {
      assert SameUpTo(nodes, more, i + 1);
      AssignedSame(nodes, more, producerOf, i, cap);
      CoveredSame(nodes, more, producerOf, links, links, i, {});
    }
    forall k | 0 <= k < |links|
      ensures SoundLink(more, producerOf, links[k], n + 1)
    {
      LinkSame(nodes, more, producerOf, links[k], n);
    }
  }

  lemma SettleNode(nodes: seq<Node>, producerOf: map<Port, int>, links: seq<Link>, n: nat, cap: int)
    requires Settling(nodes, producerOf, links, n, cap, {})
    ensures Settled(nodes, producerOf, links, n + 1, cap)
  {
  }

  /** The nodes once one more link's wait and signal are recorded. */
  function WithLink(nodes: seq<Node>, number: int, link: Link): (r: seq<Node>)
    requires 0 <= link.signaller < |nodes| && 0 <= link.waiter < |nodes|
    ensures |r| == |nodes|
  {
    var waiting := nodes[link.waiter := nodes[link.waiter].(barriers := nodes[link.waiter].barriers + [SyncEvent(number, link.stream, true)])];
    waiting[link.signaller := waiting[link.signaller].(barriers := waiting[link.signaller].barriers + [SyncEvent(number, link.stream, false)])]
  }

  lemma WithLinkSame(nodes: seq<Node>, number: int, link: Link)
    requires 0 <= link.signaller < link.waiter < |nodes|
    ensures SameUpTo(nodes, WithLink(nodes, number, link), |nodes|)
    ensures forall i | 0 <= i < |nodes| :: WithLink(nodes, number, link)[i].id == nodes[i].id
  {
  }

  lemma WithLinkBarriers(nodes: seq<Node>, links: seq<Link>, link: Link, i: nat)
    requires 0 <= link.signaller < link.waiter < |nodes| && i < |nodes|
    requires nodes[i].barriers == Barriers(links, i)
    ensures WithLink(nodes, |links| + 1, link)[i].barriers == Barriers(links + [link], i)
  {
    assert (links + [link])[..|links|] == links;
  }

  lemma DistinctAppend(links: seq<Link>, link: Link)
    requires DistinctLinks(links)
    requires forall k | 0 <= k < |links| && links[k].waiter == link.waiter :: links[k].stream != link.stream
    ensures DistinctLinks(links + [link])
  {
  }

  lemma AddLink(nodes: seq<Node>, producerOf: map<Port, int>, links: seq<Link>, n: nat, cap: int, pending: set<int>,
                link: Link)
    requires InOrder(nodes, producerOf) && Settling(nodes, producerOf, links, n, cap, pending)
    requires link.waiter == n && link.stream in pending && SoundLink(nodes, producerOf, link, n + 1)
    ensures Settling(WithLink(nodes, |links| + 1, link), producerOf, links + [link], n, cap, pending - {link.stream})
  {
    hide Barriers, Feeds, InOrder, Covered, Assigned, DistinctLinks, WithLink;
    var more, extended := WithLink(nodes, |links| + 1, link), links + [link];
    WithLinkSame(nodes, |links| + 1, link);
    forall i | 0 <= i < |nodes|
      ensures more[i].barriers == Barriers(extended, i)
    {
      WithLinkBarriers(nodes, links, link, i);
    }
    DistinctAppend(links, link);
    forall i | 0 <= i <= n
      ensures Assigned(more, producerOf, i, cap)
    {
      AssignedSame(nodes, more, producerOf, i, cap);
    }
    forall i | 0 <= i < n
      ensures Covered(more, producerOf, extended, i, {})
    {
      CoveredSame(nodes, more, producerOf, links, extended, i, {});
    }
    forall k | 0 <= k < |extended|
      ensures SoundLink(more, producerOf, extended[k], n + 1)
    {
      LinkSame(nodes, more, producerOf, if k < |links| then links[k] else link, n + 1);
    }
    CoveredSame(nodes, more, producerOf, links, extended, n, pending);
    LinkCovers(more, producerOf, extended, n, pending, link);
  }

  lemma LinkCovers(nodes: seq<Node>, producerOf: map<Port, int>, links: seq<Link>, n: nat, pending: set<int>, link: Link)
    requires n < |nodes| && Covered(nodes, producerOf, links, n, pending)
    requires links != [] && links[|links| - 1] == link && link.waiter == n
    requires SoundLink(nodes, producerOf, link, n + 1)
    ensures Covered(nodes, producerOf, links, n, pending - {link.stream})
  {
  }

  /** A stream the node itself is on needs no link. */
  lemma OwnStream(nodes: seq<Node>, producerOf: map<Port, int>, links: seq<Link>, n: nat, cap: int, pending: set<int>)
    requires Settling(nodes, producerOf, links, n, cap, pending)
    ensures Settling(nodes, producerOf, links, n, cap, pending - {nodes[n].streamID})
  {
  }

  lemma {:induction false} OpenedBounds(nodes: seq<Node>, n: nat, j: nat)
    requires j < n <= |nodes|
    ensures nodes[j].streamID < Opened(nodes, n)
  {
    if j < n - 1 {
      OpenedBounds(nodes, n - 1, j);
    }
  }

  /** The table of last nodes per stream that the loop keeps. */
  ghost predicate LastTable(nodes: seq<Node>, n: nat, lastOn: map<int, int>)
    requires n <= |nodes|
  {
    && (forall t :: t in lastOn <==> LastOn(nodes, n, t) >= 0)
    && forall t | t in lastOn :: lastOn[t] == LastOn(nodes, n, t) + 1
  }

  lemma {:induction false} LastOnRange(nodes: seq<Node>, n: nat, t: int)
    requires n <= |nodes|
    ensures -1 <= LastOn(nodes, n, t) < n
  {
    if n > 0 {
      LastOnRange(nodes, n - 1, t);
    }
  }

  /** The loop's counters choose the stream the rule asks for. */
  lemma PickedIsChosen(nodes: seq<Node>, producerOf: map<Port, int>, n: nat, latest: map<int, int>, lastOn: map<int, int>,
                       next: int, cap: int, stream: int, nextAfter: int)
    requires n < |nodes| && cap >= 1 && 0 <= next <= cap && next == Opened(nodes, n) && LastTable(nodes, n, lastOn)
    requires InOrder(nodes, producerOf) && PredecessorStreams(nodes, producerOf, n, latest)
    requires forall i | 0 <= i < n :: nodes[i].id == i + 1 && 0 <= nodes[i].streamID
    requires Picked(latest, lastOn, next, cap, stream, nextAfter)
    ensures var more := nodes[n := nodes[n].(id := n + 1, streamID := stream)];
      && Chosen(more, latest, n, cap) && 0 <= stream < cap
      && nextAfter == Opened(more, n + 1) && nextAfter <= cap
      && LastTable(more, n + 1, lastOn[stream := n + 1])
  {
    var more := nodes[n := nodes[n].(id := n + 1, streamID := stream)];
    ScanSame(nodes, more, n);
    LatestOpened(nodes, producerOf, n, latest);
    hide InOrder, PredecessorStreams;
    PickedStream(nodes, more, n, latest, lastOn, next, cap, stream, nextAfter);
    hide Picked, Chosen;
    NextTable(nodes, more, n, lastOn, stream);
  }

  /** Predecessors are earlier, so their streams are open and their IDs assigned. */
  lemma LatestOpened(nodes: seq<Node>, producerOf: map<Port, int>, n: nat, latest: map<int, int>)
    requires n < |nodes| && InOrder(nodes, producerOf) && PredecessorStreams(nodes, producerOf, n, latest)
    requires forall i | 0 <= i < n :: nodes[i].id == i + 1 && 0 <= nodes[i].streamID
    ensures forall t | t in latest :: 0 <= t < Opened(nodes, n) && latest[t] >= 1
  {
    forall t | t in latest
      ensures 0 <= t < Opened(nodes, n) && latest[t] >= 1
    {
      var j :| 0 <= j < |nodes| && Feeds(nodes, producerOf, j, n) && nodes[j].streamID == t && nodes[j].id == latest[t];
      OpenedBounds(nodes, n, j);
    }
  }

  lemma PickedStream(nodes: seq<Node>, more: seq<Node>, n: nat, latest: map<int, int>, lastOn: map<int, int>,
                     next: int, cap: int, stream: int, nextAfter: int)
    requires n < |nodes| == |more| && more[n].streamID == stream && cap >= 1 && 0 <= next <= cap
    requires next == Opened(nodes, n) == Opened(more, n) && LastTable(nodes, n, lastOn)
    requires forall t :: LastOn(more, n, t) == LastOn(nodes, n, t)
    requires forall t | t in latest :: 0 <= t < next && latest[t] >= 1
    requires Picked(latest, lastOn, next, cap, stream, nextAfter)
    ensures Chosen(more, latest, n, cap) && 0 <= stream < cap
    ensures nextAfter == Opened(more, n + 1) && nextAfter <= cap
  {
  }

  lemma NextTable(nodes: seq<Node>, more: seq<Node>, n: nat, lastOn: map<int, int>, stream: int)
    requires n < |nodes| == |more| && more[n].streamID == stream && LastTable(nodes, n, lastOn)
    requires forall t :: LastOn(more, n, t) == LastOn(nodes, n, t)
    ensures LastTable(more, n + 1, lastOn[stream := n + 1])
  {
    forall t {
      LastOnRange(nodes, n, t);
    }
  }

  method FindNodeByID(nodes: seq<Node>, id: int) returns (index: int)
    ensures -1 <= index < |nodes|
    ensures index >= 0 ==> nodes[index].id == id && forall j | 0 <= j < index :: nodes[j].id != id
    ensures index < 0 ==> forall j | 0 <= j < |nodes| :: nodes[j].id != id
  {
    for i := 0 to |nodes|
      invariant forall j | 0 <= j < i :: nodes[j].id != id
    {
      if nodes[i].id == id {
        return i;
      }
    }
    return -1;
  }

  lemma NewLinkSound(nodes: seq<Node>, producerOf: map<Port, int>, links: seq<Link>, n: nat, cap: int, pending: set<int>,
                     latest: map<int, int>, t: int, signaller: int)
    requires InOrder(nodes, producerOf) && Settling(nodes, producerOf, links, n, cap, pending)
    requires PredecessorStreams(nodes, producerOf, n, latest)
    requires t in latest && t != nodes[n].streamID
    requires 0 <= signaller < |nodes| && nodes[signaller].id == latest[t]
    ensures SoundLink(nodes, producerOf, Link(n, signaller, t), n + 1)
  {
    hide Assigned;
    var j :| 0 <= j < |nodes| && Feeds(nodes, producerOf, j, n) && nodes[j].streamID == t && nodes[j].id == latest[t];
    SettledIds(nodes, producerOf, links, n, cap, pending);
    assert j == signaller;
  }

  lemma SettledIds(nodes: seq<Node>, producerOf: map<Port, int>, links: seq<Link>, n: nat, cap: int, pending: set<int>)
    requires Settling(nodes, producerOf, links, n, cap, pending)
    ensures forall i | 0 <= i < |nodes| :: nodes[i].id == if i <= n then i + 1 else 0
    ensures forall i | 0 <= i <= n :: 0 <= nodes[i].streamID < cap
  {
    forall i | 0 <= i <= n
      ensures nodes[i].id == i + 1 && 0 <= nodes[i].streamID < cap
    {
      assert Assigned(nodes, producerOf, i, cap);
    }
  }

  /** The producer a link should come from is always found. */
  lemma ProducerExists(nodes: seq<Node>, producerOf: map<Port, int>, n: nat, latest: map<int, int>, t: int)
    requires PredecessorStreams(nodes, producerOf, n, latest) && t in latest
    ensures exists j | 0 <= j < |nodes| :: nodes[j].id == latest[t]
  {
    var j :| 0 <= j < |nodes| && Feeds(nodes, producerOf, j, n) && nodes[j].streamID == t && nodes[j].id == latest[t];
  }

  class Topology {
    var nodes: seq<Node>

    constructor (nodes: seq<Node>)
      ensures this.nodes == nodes
    {
      this.nodes := nodes;
    }

    /** Records the wait on node `n` and the signal on its latest producer, for every other stream it depends on. */
    method EmitBarriers(n: nat, latest: map<int, int>, firstEvent: int, ghost producerOf: map<Port, int>,
                        ghost links0: seq<Link>, ghost cap: int)
      returns (nextEvent: int, ghost links: seq<Link>)
      requires InOrder(nodes, producerOf) && Settling(nodes, producerOf, links0, n, cap, latest.Keys)
      requires PredecessorStreams(nodes, producerOf, n, latest) && firstEvent == |links0| + 1
      modifies this`nodes
      ensures SameUpTo(old(nodes), nodes, |nodes|) && n < |nodes|
      ensures Settled(nodes, producerOf, links, n + 1, cap) && nextEvent == |links| + 1
    {
      hide Settling, Settled, PredecessorStreams, InOrder, SoundLink;
      links, nextEvent := links0, firstEvent;
      var pending := latest.Keys;
      SettlingBound(nodes, producerOf, links, n, cap, pending);
      while pending != {}
        invariant pending <= latest.Keys && nextEvent == |links| + 1 && n < |nodes|
        invariant SameUpTo(old(nodes), nodes, |nodes|) && InOrder(nodes, producerOf)
        invariant Settling(nodes, producerOf, links, n, cap, pending)
        invariant PredecessorStreams(nodes, producerOf, n, latest)
      {
        HasElement(pending);
        var stream :| stream in pending;
        if stream == nodes[n].streamID {
          OwnStream(nodes, producerOf, links, n, cap, pending);
        } else {
          ProducerExists(nodes, producerOf, n, latest, stream);
          var producer := FindNodeByID(nodes, latest[stream]);
          var link := Link(n, producer, stream);
          NewLinkSound(nodes, producerOf, links, n, cap, pending, latest, stream, producer);
          LinkBound(nodes, producerOf, link, n + 1);
          AddLink(nodes, producerOf, links, n, cap, pending, link);
          WithLinkSame(nodes, nextEvent, link);
          ghost var before := nodes;
          nodes := WithLink(nodes, nextEvent, link);
          FeedsSame(before, nodes, producerOf);
          PredecessorsSame(before, nodes, producerOf, n, latest);
          links := links + [link];
          nextEvent := nextEvent + 1;
        }
        pending := pending - {stream};
      }
      SettleNode(nodes, producerOf, links, n, cap);
    }

    /** Gives node `index` its ID and stream. */
    method AssignStream(index: nat, producerOf: map<Port, int>, lastOn: map<int, int>, next: int, cap: int, ghost links: seq<Link>)
      returns (latest: map<int, int>, table: map<int, int>, nextAfter: int)
      requires index < |nodes| && ProducerIndex(nodes, producerOf) && InOrder(nodes, producerOf)
      requires Settled(nodes, producerOf, links, index, cap)
      requires cap >= 1 && 0 <= next <= cap && next == Opened(nodes, index) && LastTable(nodes, index, lastOn)
      modifies this`nodes
      ensures SameWiring(old(nodes), nodes) && Settling(nodes, producerOf, links, index, cap, latest.Keys)
      ensures PredecessorStreams(nodes, producerOf, index, latest)
      ensures 0 <= nextAfter <= cap && nextAfter == Opened(nodes, index + 1) && LastTable(nodes, index + 1, table)
    {
      hide Settling, Settled, PredecessorStreams, Picked, Chosen, LastTable, InOrder, ProducerIndex, LastOn;
      var stream;
      latest := CollectPredecessorStreams(nodes, producerOf, index);
      stream, nextAfter := PickStream(latest, lastOn, next, cap);
      SettledFacts(nodes, producerOf, links, index, cap);
      PickedIsChosen(nodes, producerOf, index, latest, lastOn, next, cap, stream, nextAfter);
      AssignNode(nodes, producerOf, links, index, cap, latest, stream);
      ghost var before := nodes;
      nodes := nodes[index := nodes[index].(id := index + 1, streamID := stream)];
      PredecessorsSame(before, nodes, producerOf, index, latest);
      table := lastOn[stream := index + 1];
      OpenedNonNegative(nodes, index + 1);
    }

    /**
     Assigns streams and events in one walk over the nodes. It cannot fail on a fresh
     topology in execution order, so there is no error to return.
     */
    method ScheduleStreams(maxStreams: int, ghost producers: map<Port, int>) returns (ghost links: seq<Link>)
      requires Fresh(nodes, producers)
      modifies this`nodes
      ensures Scheduled(old(nodes), nodes, producers, links, if maxStreams < 1 then |nodes| else maxStreams)
    {
      hide Settling, Settled, PredecessorStreams, LastTable, InOrder, ProducerIndex, Opened;
      links := [];
      var cap := if maxStreams < 1 then |nodes| else maxStreams;
      StartSettled(nodes, producers, cap);
      FreshOrder(nodes, producers);
      var producerOf := BuildProducerIndex(nodes);
      ProducerIndexUnique(nodes, producers, producerOf);
      var lastOn: map<int, int> := map[];
      var next, nextEvent := 0, 1;
      NoLastTable(nodes);
      ghost var start := nodes;
      for index := 0 to |nodes|
        invariant SameWiring(start, nodes) && InOrder(nodes, producerOf) && ProducerIndex(nodes, producerOf)
        invariant Settled(nodes, producerOf, links, index, cap) && nextEvent == |links| + 1
        invariant 0 <= next <= cap && next == Opened(nodes, index) && LastTable(nodes, index, lastOn)
      {
        ghost var before := nodes;
        var latest;
        latest, lastOn, next := AssignStream(index, producerOf, lastOn, next, cap, links);
        FeedsSame(before, nodes, producerOf);
        ghost var settling := nodes;
        nextEvent, links := EmitBarriers(index, latest, nextEvent, producerOf, links, cap);
        FeedsSame(settling, nodes, producerOf);
        ScanSame(settling, nodes, index + 1);
        LastTableSame(settling, nodes, index + 1, lastOn);
      }
    }
  }

  lemma FreshOrder(nodes: seq<Node>, producerOf: map<Port, int>)
    requires Fresh(nodes, producerOf)
    ensures InOrder(nodes, producerOf) && ProducerIndex(nodes, producerOf)
  {
  }

  lemma {:induction false} OpenedNonNegative(nodes: seq<Node>, n: nat)
    requires n <= |nodes|
    ensures Opened(nodes, n) >= 0
  {
    if n > 0 {
      OpenedNonNegative(nodes, n - 1);
    }
  }

  lemma SettlingBound(nodes: seq<Node>, producerOf: map<Port, int>, links: seq<Link>, n: nat, cap: int, pending: set<int>)
    requires Settling(nodes, producerOf, links, n, cap, pending)
    ensures n < |nodes|
  {
  }

  lemma LinkBound(nodes: seq<Node>, producerOf: map<Port, int>, link: Link, limit: int)
    requires SoundLink(nodes, producerOf, link, limit)
    ensures 0 <= link.signaller < link.waiter < |nodes|
  {
  }

  lemma ProducerIndexUnique(nodes: seq<Node>, a: map<Port, int>, b: map<Port, int>)
    requires ProducerIndex(nodes, a) && ProducerIndex(nodes, b)
    ensures a == b
  {
    forall p
      ensures p in a <==> p in b
      ensures p in a && p in b ==> a[p] == b[p]
    {
    }
  }

  lemma NoLastTable(nodes: seq<Node>)
    ensures LastTable(nodes, 0, map[]) && Opened(nodes, 0) == 0
  {
  }

  lemma SettledFacts(nodes: seq<Node>, producerOf: map<Port, int>, links: seq<Link>, n: nat, cap: int)
    requires Settled(nodes, producerOf, links, n, cap)
    ensures n <= |nodes| && forall i | 0 <= i < n :: nodes[i].id == i + 1 && 0 <= nodes[i].streamID < cap
  {
    forall i | 0 <= i < n
      ensures nodes[i].id == i + 1 && 0 <= nodes[i].streamID < cap
    {
      assert Assigned(nodes, producerOf, i, cap);
    }
  }

  lemma LastTableSame(a: seq<Node>, b: seq<Node>, n: nat, lastOn: map<int, int>)
    requires n <= |a| && SameUpTo(a, b, n) && LastTable(a, n, lastOn)
    ensures LastTable(b, n, lastOn)
  {
    ScanSame(a, b, n);
  }
}
