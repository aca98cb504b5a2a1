/** What the handler does with referer blocks whose hashes differ. No leader of this program sets
    a hash, so at least one of them has to come from other software. Two of them chase each other
    along every walk, so they come to rest on exactly the graphs without a closed walk. */
module RefererWalks {
  import opened Bytes
  import opened BlockDb
  import opened Flood
  import opened RefererFlood

  /** Both blocks are about to reach every peer of x, and no node remembers the first. */
  ghost predicate Chasing(s: State, peers: Graph, x: nat, a: Referer, b: Referer) {
    && |s.current| == |peers| && x < |peers|
    && (forall y :: y in peers[x] ==> (y, a) in s.inflight && (y, b) in s.inflight)
    && (forall v :: 0 <= v < |s.current| ==> PassesOn(s.current[v], a))
  }

  /** The first and then the second block are delivered to one node after the other. */
  ghost function Along(walk: seq<nat>, a: Referer, b: Referer): seq<Step> {
    if walk == [] then [] else Along(walk[..|walk| - 1], a, b) + [Deliver(walk[|walk| - 1], a), Deliver(walk[|walk| - 1], b)]
  }

  lemma FirstPasses(s: State, peers: Graph, x: nat, y: nat, a: Referer, b: Referer)
    requires Chasing(s, peers, x, a, b) && a.hash != b.hash && y in peers[x] && y < |peers|
    ensures var t := Next(s, Deliver(y, a), peers);
            && t.current == s.current[y := Some(a)] && t.delivered == s.delivered + 1 && t.sent == s.sent
            && (y, b) in t.inflight && forall z :: z in peers[y] ==> (z, a) in t.inflight
  {
    BroadcastContents(peers[y], a);
  }

  lemma SecondPasses(t: State, peers: Graph, y: nat, a: Referer, b: Referer)
    requires |t.current| == |peers| && y < |peers| && a.hash != b.hash && t.current[y] == Some(a) && (y, b) in t.inflight
    requires forall z :: z in peers[y] ==> (z, a) in t.inflight
    ensures var w := Next(t, Deliver(y, b), peers);
            && w.current == t.current[y := Some(b)] && w.delivered == t.delivered + 1 && w.sent == t.sent
            && forall z :: z in peers[y] ==> (z, a) in w.inflight && (z, b) in w.inflight
  {
    BroadcastContents(peers[y], b);
    var w := Next(t, Deliver(y, b), peers);
    forall z | z in peers[y] ensures (z, a) in w.inflight && (z, b) in w.inflight {
      assert (z, a) != (y, b);
    }
  }

  /** Delivering the first and then the second to a peer y of x sends both on to all peers of y. */
  lemma ChaseMovesOn(s: State, peers: Graph, x: nat, y: nat, a: Referer, b: Referer)
    requires Chasing(s, peers, x, a, b) && a.hash != b.hash && y in peers[x] && y < |peers|
    ensures var t := Run(peers, s, [Deliver(y, a), Deliver(y, b)]);
            Chasing(t, peers, y, a, b) && t.delivered == s.delivered + 2 && t.sent == s.sent
  {
    FirstPasses(s, peers, x, y, a, b);
    SecondPasses(Next(s, Deliver(y, a), peers), peers, y, a, b);
    RunTwo(peers, s, Deliver(y, a), Deliver(y, b));
  }

  lemma ToAllPeers(targets: seq<nat>, a: Referer, b: Referer)
    ensures forall y :: y in targets ==> (y, a) in Broadcast(targets, a) + Broadcast(targets, b) && (y, b) in Broadcast(targets, a) + Broadcast(targets, b)
  {
    BroadcastContents(targets, a);
    BroadcastContents(targets, b);
  }

  lemma ProposedBoth(peers: Graph, u: nat, a: Referer, b: Referer)
    requires u < |peers|
    ensures var t := Run(peers, Initial(|peers|), [Propose(u, a), Propose(u, b)]);
            Chasing(t, peers, u, a, b) && t.delivered == 0 && t.sent == 2 * |peers[u]|
  {
    BothProposed(peers, u, a, b);
    ToAllPeers(peers[u], a, b);
  }

  /** Both are proposed at the start of a walk, and delivered along the rest of it. */
  ghost function ChaseOn(p: seq<nat>, a: Referer, b: Referer): seq<Step>
    requires p != []
  {
    [Propose(p[0], a), Propose(p[0], b)] + Along(p[1..], a, b)
  }

  lemma ChaseOnSnoc(p: seq<nat>, a: Referer, b: Referer)
    requires |p| > 1
    ensures ChaseOn(p, a, b) == ChaseOn(p[..|p| - 1], a, b) + [Deliver(p[|p| - 1], a), Deliver(p[|p| - 1], b)]
  {
    var walk := p[1..];
    assert walk[..|walk| - 1] == p[..|p| - 1][1..];
    assert Along(walk, a, b) == Along(walk[..|walk| - 1], a, b) + [Deliver(p[|p| - 1], a), Deliver(p[|p| - 1], b)];
  }

  lemma {:induction false} WalkChased(peers: Graph, p: seq<nat>, a: Referer, b: Referer)
    requires Path(peers, p) && a.hash != b.hash
    ensures var s := Run(peers, Initial(|peers|), ChaseOn(p, a, b));
            Chasing(s, peers, p[|p| - 1], a, b) && s.delivered == 2 * (|p| - 1) && s.sent == 2 * |peers[p[0]]|
  {
    if |p| == 1 {
      ProposedBoth(peers, p[0], a, b);
      assert ChaseOn(p, a, b) == [Propose(p[0], a), Propose(p[0], b)];
    } else {
      var front, y := p[..|p| - 1], p[|p| - 1];
      assert p[|p| - 2 + 1] in peers[p[|p| - 2]];
      WalkChased(peers, front, a, b);
      ChaseOnSnoc(p, a, b);
      RunSplits(peers, Initial(|peers|), ChaseOn(front, a, b), [Deliver(y, a), Deliver(y, b)]);
      ChaseMovesOn(Run(peers, Initial(|peers|), ChaseOn(front, a, b)), peers, p[|p| - 2], y, a, b);
    }
  }

  ghost predicate ClosedWalk(peers: Graph, p: seq<nat>) {
    Path(peers, p) && |p| > 1 && p[0] == p[|p| - 1]
  }

  /** The walk of n edges round and round a closed walk. */
  ghost function Around(p: seq<nat>, n: nat): seq<nat>
    requires |p| > 1
  {
    seq(n + 1, i requires 0 <= i => p[i % (|p| - 1)])
  }

  lemma NextRemainder(i: nat, m: nat)
    requires m > 0
    ensures (i + 1) % m == if i % m + 1 == m then 0 else i % m + 1
  {
    var q, r := i / m, i % m;
    assert i == q * m + r;
    if r + 1 == m {
      assert i + 1 == (q + 1) * m;
      DivUnique(i + 1, m, q + 1);
    } else {
      DivUnique(i + 1, m, q);
    }
  }

  lemma AroundIsPath(peers: Graph, p: seq<nat>, n: nat)
    requires ClosedWalk(peers, p)
    ensures Path(peers, Around(p, n))
  {
    var m, q := |p| - 1, Around(p, n);
    forall i | 0 <= i < |q| - 1 ensures q[i + 1] in peers[q[i]] {
      NextRemainder(i, m);
      assert p[i % m + 1] in peers[p[i % m]];
    }
  }

  /** Two referer blocks never come to rest on a closed walk: after two proposals there are runs
      with any number of deliveries, in which no node forgets anything. */
  lemma TwoReferersUnbounded(peers: Graph, p: seq<nat>, a: Referer, b: Referer, n: nat)
    requires ClosedWalk(peers, p) && a.hash != b.hash
    ensures Run(peers, Initial(|peers|), ChaseOn(Around(p, n), a, b)).delivered == 2 * n
    ensures Run(peers, Initial(|peers|), ChaseOn(Around(p, n), a, b)).sent == 2 * |peers[p[0]]|
  {
    AroundIsPath(peers, p, n);
    WalkChased(peers, Around(p, n), a, b);
  }

  /** The messages a message to v can give rise to, itself included, over at most d further
      hops; and those of one message to each target. */
  ghost function Cost(peers: Graph, v: nat, d: nat): nat
    requires ValidGraph(peers) && v < |peers|
    decreases d, 0
  {
    1 + if d == 0 then 0 else CostTo(peers, peers[v], d - 1)
  }

  ghost function CostTo(peers: Graph, targets: seq<nat>, d: nat): nat
    requires ValidGraph(peers) && forall i :: 0 <= i < |targets| ==> targets[i] < |peers|
    decreases d, |targets|
  {
    if targets == [] then 0 else CostTo(peers, targets[..|targets| - 1], d) + Cost(peers, targets[|targets| - 1], d)
  }

  /** No path from v has more than d edges. */
  ghost predicate Short(peers: Graph, v: nat, d: nat) {
    forall p :: Path(peers, p) && p[0] == v ==> |p| <= d + 1
  }

  lemma ShortNext(peers: Graph, v: nat, w: nat, d: nat)
    requires ValidGraph(peers) && v < |peers| && Short(peers, v, d) && w in peers[v]
    ensures d > 0 && w < |peers| && Short(peers, w, d - 1)
  {
    assert w < |peers|;
    assert Path(peers, [v, w]);
    forall p | Path(peers, p) && p[0] == w ensures |p| <= d {
      var q := [v] + p;
      forall i | 0 <= i < |q| - 1 ensures q[i + 1] in peers[q[i]] {
        assert i > 0 ==> p[i - 1 + 1] in peers[p[i - 1]];
      }
      assert Path(peers, q);
    }
  }

  /** Hops beyond the longest path cost nothing. */
  lemma {:induction false} CostStable(peers: Graph, v: nat, d: nat)
    requires ValidGraph(peers) && v < |peers| && Short(peers, v, d)
    ensures CostTo(peers, peers[v], d) + 1 == Cost(peers, v, d)
    decreases d, 0
  {
    if d == 0 {
      if peers[v] != [] {
        ShortNext(peers, v, peers[v][0], d);
      }
    } else {
      forall i | 0 <= i < |peers[v]| ensures Short(peers, peers[v][i], d - 1) {
        ShortNext(peers, v, peers[v][i], d);
      }
      CostToStable(peers, peers[v], d - 1);
    }
  }

  lemma {:induction false} CostToStable(peers: Graph, targets: seq<nat>, d: nat)
    requires ValidGraph(peers) && forall i :: 0 <= i < |targets| ==> targets[i] < |peers| && Short(peers, targets[i], d)
    ensures CostTo(peers, targets, d + 1) == CostTo(peers, targets, d)
    decreases d, |targets| + 1
  {
    if targets != [] {
      CostToStable(peers, targets[..|targets| - 1], d);
      CostStable(peers, targets[|targets| - 1], d);
    }
  }

  /** The costs of all messages in flight. */
  ghost function Total(peers: Graph, ms: multiset<(nat, Referer)>, d: nat): nat
    requires ValidGraph(peers) && forall m :: m in ms ==> m.0 < |peers|
    decreases |ms|
  {
    if ms == multiset{} then 0
    else
      var m :| m in ms;
      assert |ms - multiset{m}| < |ms| by { TakeAndSend(ms, m, multiset{}); }
      Cost(peers, m.0, d) + Total(peers, ms - multiset{m}, d)
  }

  lemma TakeBoth<M>(ms: multiset<M>, k: M, m: M)
    requires k in ms && m in ms && k != m
    ensures m in ms - multiset{k} && k in ms - multiset{m}
    ensures |ms - multiset{k}| < |ms| && |ms - multiset{m}| < |ms|
    ensures ms - multiset{k} - multiset{m} == ms - multiset{m} - multiset{k}
  {
    TakeAndSend(ms, k, multiset{});
    TakeAndSend(ms, m, multiset{});
  }

  lemma {:induction false} TotalTake(peers: Graph, ms: multiset<(nat, Referer)>, d: nat, m: (nat, Referer))
    requires ValidGraph(peers) && (forall k :: k in ms ==> k.0 < |peers|) && m in ms
    ensures Total(peers, ms, d) == Cost(peers, m.0, d) + Total(peers, ms - multiset{m}, d)
    decreases |ms|
  {
    var k :| k in ms && Total(peers, ms, d) == Cost(peers, k.0, d) + Total(peers, ms - multiset{k}, d);
    if k != m {
      TakeBoth(ms, k, m);
      TotalTake(peers, ms - multiset{k}, d, m);
      TotalTake(peers, ms - multiset{m}, d, k);
    }
  }

  lemma {:induction false} TotalBroadcast(peers: Graph, ms: multiset<(nat, Referer)>, targets: seq<nat>, r: Referer, d: nat)
    requires ValidGraph(peers) && (forall m :: m in ms ==> m.0 < |peers|) && (forall i :: 0 <= i < |targets| ==> targets[i] < |peers|)
    ensures forall m :: m in ms + Broadcast(targets, r) ==> m.0 < |peers|
    ensures Total(peers, ms + Broadcast(targets, r), d) == Total(peers, ms, d) + CostTo(peers, targets, d)
  {
    BroadcastContents(targets, r);
    if targets == [] {
      assert ms + Broadcast(targets, r) == ms;
    } else {
      var front, last := targets[..|targets| - 1], targets[|targets| - 1];
      TotalBroadcast(peers, ms, front, r, d);
      var all := ms + Broadcast(targets, r);
      assert all - multiset{(last, r)} == ms + Broadcast(front, r);
      TotalTake(peers, all, d, (last, r));
    }
  }

  /** What the proposals of a run can give rise to. */
  ghost function Budget(peers: Graph, steps: seq<Step>, d: nat): nat
    requires ValidGraph(peers)
  {
    if steps == [] then 0
    else
      var step := steps[|steps| - 1];
      Budget(peers, steps[..|steps| - 1], d) + if step.Propose? && step.node < |peers| then CostTo(peers, peers[step.node], d) else 0
  }

  ghost predicate AllShort(peers: Graph, d: nat) {
    ValidGraph(peers) && forall v :: 0 <= v < |peers| ==> Short(peers, v, d)
  }

  ghost predicate Within(peers: Graph, s: State, d: nat, budget: nat)
    requires ValidGraph(peers)
  {
    && |s.current| == |peers| && (forall m :: m in s.inflight ==> m.0 < |peers|)
    && s.delivered + Total(peers, s.inflight, d) <= budget
  }

  lemma DeliverWithin(peers: Graph, s: State, v: nat, r: Referer, d: nat, budget: nat)
    requires AllShort(peers, d) && Within(peers, s, d, budget) && (v, r) in s.inflight
    ensures v < |peers| && Within(peers, Apply(s, Deliver(v, r), peers), d, budget)
  {
    var rest := s.inflight - multiset{(v, r)};
    TotalTake(peers, s.inflight, d, (v, r));
    TotalBroadcast(peers, rest, peers[v], r, d);
    CostStable(peers, v, d);
  }

  /** Where paths are short, every run stays within the budget of its proposals, whatever blocks
      they propose and whatever nodes forget. */
  lemma {:induction false} ShortPathsBounded(peers: Graph, steps: seq<Step>, d: nat)
    requires AllShort(peers, d)
    ensures Within(peers, Run(peers, Initial(|peers|), steps), d, Budget(peers, steps, d))
  {
    if steps != [] {
      var front, step := steps[..|steps| - 1], steps[|steps| - 1];
      ShortPathsBounded(peers, front, d);
      var s := Run(peers, Initial(|peers|), front);
      if Enabled(s, step) {
        match step
        case Propose(u, r) => TotalBroadcast(peers, s.inflight, peers[u], r, d);
        case Deliver(v, r) => DeliverWithin(peers, s, v, r, d, Budget(peers, front, d));
        case Forget(_) =>
      }
    }
  }

  lemma {:induction false} ElementsCount(p: seq<nat>, n: nat)
    requires (forall i :: 0 <= i < |p| ==> p[i] < n) && (forall i, j :: 0 <= i < j < |p| ==> p[i] != p[j])
    ensures |p| <= n
    decreases n
  {
    if |p| > 0 {
      assert 0 <= p[0] < n;
      if k :| 0 <= k < |p| && p[k] == n - 1 {
        var q := p[..k] + p[k + 1..];
        assert forall i :: 0 <= i < |q| ==> q[i] == p[if i < k then i else i + 1];
        ElementsCount(q, n - 1);
      } else {
        ElementsCount(p, n - 1);
      }
    }
  }

  /** A path with more nodes than the graph closes on itself somewhere. */
  lemma LongPathCloses(peers: Graph, p: seq<nat>)
    requires Path(peers, p) && |p| > |peers|
    ensures exists q :: ClosedWalk(peers, q)
  {
    if forall i, j :: 0 <= i < j < |p| ==> p[i] != p[j] {
      ElementsCount(p, |peers|);
    } else {
      var i, j :| 0 <= i < j < |p| && p[i] == p[j];
      var q := p[i..j + 1];
      forall k | 0 <= k < |q| - 1 ensures q[k + 1] in peers[q[k]] {
        assert p[i + k + 1] in peers[p[i + k]];
      }
      assert ClosedWalk(peers, q);
    }
  }

  lemma NoClosedWalkShort(peers: Graph)
    requires ValidGraph(peers) && !exists p :: ClosedWalk(peers, p)
    ensures AllShort(peers, |peers|)
  {
    forall v | 0 <= v < |peers| ensures Short(peers, v, |peers|) {
      forall p | Path(peers, p) && p[0] == v ensures |p| <= |peers| + 1 {
        if |p| > |peers| {
          LongPathCloses(peers, p);
          assert false;
        }
      }
    }
  }

  /** Two proposals at u, and nothing but deliveries after them. */
  ghost predicate TwoProposed(steps: seq<Step>, u: nat, a: Referer, b: Referer) {
    && |steps| >= 2 && steps[0] == Propose(u, a) && steps[1] == Propose(u, b)
    && (forall i :: 2 <= i < |steps| ==> steps[i].Deliver?)
  }

  lemma {:induction false} AlongDelivers(walk: seq<nat>, a: Referer, b: Referer)
    ensures forall i :: 0 <= i < |Along(walk, a, b)| ==> Along(walk, a, b)[i].Deliver?
  {
    if walk != [] {
      AlongDelivers(walk[..|walk| - 1], a, b);
    }
  }

  lemma {:induction false} TwoProposedBudget(peers: Graph, steps: seq<Step>, u: nat, a: Referer, b: Referer, d: nat)
    requires ValidGraph(peers) && TwoProposed(steps, u, a, b) && u < |peers|
    ensures Budget(peers, steps, d) == 2 * CostTo(peers, peers[u], d)
  {
    var front := steps[..|steps| - 1];
    if |steps| == 2 {
      assert front[..1] == [Propose(u, a)] == front && front[..0] == [];
      assert Budget(peers, front, d) == Budget(peers, front[..0], d) + CostTo(peers, peers[u], d);
    } else {
      TwoProposedBudget(peers, front, u, a, b, d);
    }
  }

  ghost predicate Busy(peers: Graph, u: nat, a: Referer, b: Referer, n: nat) {
    exists steps :: TwoProposed(steps, u, a, b) && Run(peers, Initial(|peers|), steps).delivered >= n
  }

  ghost predicate Endless(peers: Graph, u: nat, a: Referer, b: Referer) {
    u < |peers| && forall n: nat :: Busy(peers, u, a, b, n)
  }

  lemma ClosedWalkEndless(peers: Graph, p: seq<nat>, a: Referer, b: Referer)
    requires ClosedWalk(peers, p) && a.hash != b.hash
    ensures Endless(peers, p[0], a, b)
  {
    forall n: nat ensures Busy(peers, p[0], a, b, n) {
      TwoReferersUnbounded(peers, p, a, b, n);
      AlongDelivers(Around(p, n)[1..], a, b);
      assert TwoProposed(ChaseOn(Around(p, n), a, b), p[0], a, b);
    }
  }

  lemma NotEndless(peers: Graph, u: nat, a: Referer, b: Referer, d: nat)
    requires AllShort(peers, d)
    ensures !Endless(peers, u, a, b)
  {
    if u < |peers| {
      var bound := 2 * CostTo(peers, peers[u], d);
      forall steps | TwoProposed(steps, u, a, b) ensures Run(peers, Initial(|peers|), steps).delivered <= bound {
        ShortPathsBounded(peers, steps, d);
        TwoProposedBudget(peers, steps, u, a, b, d);
      }
      assert !Busy(peers, u, a, b, bound + 1);
    }
  }

  /** On a graph with a closed walk, and only there, two blocks with different hashes proposed
      once each can cause any amount of traffic. */
  lemma NeverRestsIff(peers: Graph, a: Referer, b: Referer)
    requires ValidGraph(peers) && a.hash != b.hash
    ensures (exists p :: ClosedWalk(peers, p)) <==> exists u :: Endless(peers, u, a, b)
  {
    if p :| ClosedWalk(peers, p) {
      ClosedWalkEndless(peers, p, a, b);
    } else {
      NoClosedWalkShort(peers);
      forall u: nat ensures !Endless(peers, u, a, b) {
        NotEndless(peers, u, a, b, |peers|);
      }
    }
  }
}
