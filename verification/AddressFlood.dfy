/** Gossip of gateway addresses over any finite peer graph, in runs where addresses are only
    added. A node told of addresses by its operator sends the whole list to its peers; a node
    that receives a list passes on those it did not have. Messages are delivered in any order
    and none is lost. */
module AddressFlood {
  import opened Flood

  type Address = string
  type Messages = multiset<(nat, seq<Address>)>

  /** `delivered` counts deliveries; `repeats` counts the messages sent for lists in which the
      node had every address already. */
  datatype State = State(
    known: seq<set<Address>>,
    inflight: Messages,
    introduced: set<Address>,
    delivered: nat,
    repeats: nat)

  datatype Step =
    | Add(node: nat, addresses: seq<Address>)
    | Deliver(node: nat, addresses: seq<Address>)

  function Members(l: seq<Address>): set<Address> {
    set a | a in l
  }

  /** The addresses of the list that are new to the node, in order and without repetitions. */
  function NewOnes(known: set<Address>, l: seq<Address>): seq<Address> {
    if l == [] then []
    else
      var front, last := l[..|l| - 1], l[|l| - 1];
      if last in known || last in front then NewOnes(known, front) else NewOnes(known, front) + [last]
  }

  lemma MembersOfLast(l: seq<Address>)
    requires l != []
    ensures Members(l) == Members(l[..|l| - 1]) + {l[|l| - 1]}
  {
    assert l == l[..|l| - 1] + [l[|l| - 1]];
  }

  lemma {:induction false} NewOnesContents(known: set<Address>, l: seq<Address>)
    ensures Members(NewOnes(known, l)) == Members(l) - known
    ensures |NewOnes(known, l)| == |Members(l) - known|
    ensures forall i, j :: 0 <= i < j < |NewOnes(known, l)| ==> NewOnes(known, l)[i] != NewOnes(known, l)[j]
  {
    if l != [] {
      var front, last := l[..|l| - 1], l[|l| - 1];
      NewOnesContents(known, front);
      MembersOfLast(l);
      var added := NewOnes(known, front);
      if last in known || last in front {
        assert Members(l) - known == Members(front) - known;
      } else {
        assert Members(l) - known == (Members(front) - known) + {last};
        assert last !in Members(added);
        assert Members(added + [last]) == Members(added) + {last};
      }
    } else {
      assert Members(l) - known == {};
    }
  }

  /** They keep the order in which the list has them first. */
  lemma {:induction false} NewOnesInOrder(known: set<Address>, l: seq<Address>, more: seq<Address>)
    ensures NewOnes(known, l) <= NewOnes(known, l + more)
    decreases |more|
  {
    if more == [] {
      assert l + more == l;
    } else {
      var front := more[..|more| - 1];
      NewOnesInOrder(known, l, front);
      assert (l + more)[..|l + more| - 1] == l + front;
    }
  }

  function Initial(n: nat): State {
    State(seq(n, _ => {}), multiset{}, {}, 0, 0)
  }

  ghost predicate Enabled(s: State, step: Step) {
    step.node < |s.known| && (step.Deliver? ==> (step.node, step.addresses) in s.inflight)
  }

  /** An empty list is not sent. */
  function Send(targets: seq<nat>, l: seq<Address>): Messages {
    if l == [] then multiset{} else Broadcast(targets, l)
  }

  function Apply(s: State, step: Step, peers: Graph): State
    requires step.node < |s.known| == |peers|
  {
    var u, l := step.node, step.addresses;
    var known := s.known[u := s.known[u] + Members(l)];
    if step.Add? then
      State(known, s.inflight + Send(peers[u], l), s.introduced + Members(l), s.delivered,
        s.repeats + if l != [] && Members(l) <= s.known[u] then |peers[u]| else 0)
    else
      State(known, s.inflight - multiset{(u, l)} + Send(peers[u], NewOnes(s.known[u], l)), s.introduced, s.delivered + 1, s.repeats)
  }

  /** The address is on its way to v. */
  ghost predicate Coming(inflight: Messages, v: nat, a: Address) {
    exists l :: (v, l) in inflight && a in l
  }

  /** Whatever a node has, each of its peers has it too or will be sent it. */
  ghost predicate Covered(peers: Graph, known: seq<set<Address>>, inflight: Messages) {
    |known| == |peers| &&
    forall u, v, a :: 0 <= u < |peers| && 0 <= v < |peers| && v in peers[u] && a in known[u] ==> a in known[v] || Coming(inflight, v, a)
  }

  ghost predicate Introduced(known: seq<set<Address>>, inflight: Messages, introduced: set<Address>) {
    && (forall v :: 0 <= v < |known| ==> known[v] <= introduced)
    && (forall m :: m in inflight ==> m.0 < |known| && Members(m.1) <= introduced)
  }

  /** Deliveries made, messages in flight and messages owed stay within one per edge and
      address, plus the repeats. */
  ghost predicate Bounded(peers: Graph, known: seq<set<Address>>, introduced: set<Address>, inflight: nat, delivered: nat, repeats: nat) {
    |known| == |peers| && delivered + inflight + Debt<Address>(peers, known, introduced) <= Times(|introduced|, Edges(peers)) + repeats
  }

  ghost predicate Inv(s: State, peers: Graph) {
    && ValidGraph(peers)
    && Covered(peers, s.known, s.inflight)
    && Introduced(s.known, s.inflight, s.introduced)
    && Bounded(peers, s.known, s.introduced, |s.inflight|, s.delivered, s.repeats)
  }

  lemma InitialInv(peers: Graph)
    requires ValidGraph(peers)
    ensures Inv(Initial(|peers|), peers)
  {
    NothingOwed<Address>(peers, Initial(|peers|).known, {}, |peers|);
  }

  lemma SendContents(targets: seq<nat>, l: seq<Address>)
    ensures forall m :: m in Send(targets, l) <==> l != [] && m.0 in targets && m.1 == l
    ensures |Send(targets, l)| == if l == [] then 0 else |targets|
  {
    BroadcastContents(targets, l);
  }

  /** The node tells its peers every address it learns. */
  lemma SendCovers(peers: Graph, known: seq<set<Address>>, inflight: Messages, u: nat, learnt: seq<Address>, sent: seq<Address>)
    requires Covered(peers, known, inflight) && u < |peers|
    requires Members(learnt) - known[u] <= Members(sent)
    ensures Covered(peers, known[u := known[u] + Members(learnt)], inflight + Send(peers[u], sent))
  {
    SendContents(peers[u], sent);
    var known', inflight' := known[u := known[u] + Members(learnt)], inflight + Send(peers[u], sent);
    forall w, v, a | 0 <= w < |peers| && 0 <= v < |peers| && v in peers[w] && a in known'[w] ensures a in known'[v] || Coming(inflight', v, a) {
      if a in known[w] {
        if Coming(inflight, v, a) {
          var l :| (v, l) in inflight && a in l;
          assert (v, l) in inflight';
        }
      } else {
        assert w == u && a in Members(learnt) - known[u];
        assert a in Members(sent);
        assert (v, sent) in inflight';
      }
    }
  }

  /** A message whose addresses the receiver has is no longer needed. */
  lemma TakeCovers(peers: Graph, known: seq<set<Address>>, inflight: Messages, v: nat, l: seq<Address>)
    requires Covered(peers, known, inflight) && v < |peers| && Members(l) <= known[v]
    ensures Covered(peers, known, inflight - multiset{(v, l)})
  {
    var rest := inflight - multiset{(v, l)};
    forall w, x, a | 0 <= w < |peers| && 0 <= x < |peers| && x in peers[w] && a in known[w] ensures a in known[x] || Coming(rest, x, a) {
      if a !in known[x] {
        var m :| (x, m) in inflight && a in m;
        assert a in Members(m);
        assert (x, m) in rest;
      }
    }
  }

  /** The last address of a list costs a message to each peer when it is new. */
  lemma LastPays(peers: Graph, known: seq<set<Address>>, items: set<Address>, v: nat, front: set<Address>, last: Address)
    requires |peers| == |known| && v < |known| && last in items
    ensures Debt<Address>(peers, known[v := known[v] + (front + {last})], items)
          + (if last in known[v] + front then 0 else |peers[v]|) == Debt<Address>(peers, known[v := known[v] + front], items)
  {
    var known' := known[v := known[v] + front];
    assert known'[v] + {last} == known[v] + (front + {last});
    assert known'[v := known'[v] + {last}] == known[v := known[v] + (front + {last})];
    if last in known'[v] {
      assert known'[v] + {last} == known'[v];
    } else {
      LearnPays<Address>(peers, known', items, v, last);
    }
  }

  /** Learning a list pays for each new address. */
  lemma {:induction false} LearnListPays(peers: Graph, known: seq<set<Address>>, items: set<Address>, v: nat, l: seq<Address>)
    requires |peers| == |known| && v < |known| && Members(l) <= items
    ensures Debt<Address>(peers, known[v := known[v] + Members(l)], items) + Times(|NewOnes(known[v], l)|, |peers[v]|) == Debt<Address>(peers, known, items)
  {
    if l == [] {
      assert known[v] + Members(l) == known[v];
      assert known[v := known[v]] == known;
    } else {
      var front, last := l[..|l| - 1], l[|l| - 1];
      MembersOfLast(l);
      assert last in Members(l);
      LearnListPays(peers, known, items, v, front);
      LastPays(peers, known, items, v, Members(front), last);
    }
  }

  lemma LastOwed(peers: Graph, known: seq<set<Address>>, items: set<Address>, last: Address)
    requires |peers| == |known| && (forall v :: 0 <= v < |known| ==> known[v] <= items)
    ensures Debt<Address>(peers, known, items + {last}) + Times(|items|, Edges(peers))
         == Debt<Address>(peers, known, items) + Times(|items + {last}|, Edges(peers))
  {
    if last in items {
      assert items + {last} == items;
    } else {
      NewItemOwed<Address>(peers, known, items, last, |peers|);
    }
  }

  /** Addresses no node has seen are owed once on every edge. */
  lemma {:induction false} NewListOwed(peers: Graph, known: seq<set<Address>>, items: set<Address>, l: seq<Address>)
    requires |peers| == |known| && (forall v :: 0 <= v < |known| ==> known[v] <= items)
    ensures Debt<Address>(peers, known, items + Members(l)) + Times(|items|, Edges(peers))
         == Debt<Address>(peers, known, items) + Times(|items + Members(l)|, Edges(peers))
  {
    if l == [] {
      assert items + Members(l) == items;
    } else {
      var front, last := l[..|l| - 1], l[|l| - 1];
      MembersOfLast(l);
      NewListOwed(peers, known, items, front);
      LastOwed(peers, known, items + Members(front), last);
      assert items + Members(l) == (items + Members(front)) + {last};
    }
  }

  lemma AddBounded(peers: Graph, known: seq<set<Address>>, items: set<Address>, inflight: nat, delivered: nat, repeats: nat, u: nat, l: seq<Address>)
    requires Bounded(peers, known, items, inflight, delivered, repeats) && u < |peers|
    requires forall v :: 0 <= v < |known| ==> known[v] <= items
    ensures Bounded(peers, known[u := known[u] + Members(l)], items + Members(l), inflight + (if l == [] then 0 else |peers[u]|), delivered,
                    repeats + if l != [] && Members(l) <= known[u] then |peers[u]| else 0)
  {
    NewListOwed(peers, known, items, l);
    LearnListPays(peers, known, items + Members(l), u, l);
    NewOnesContents(known[u], l);
    if l != [] && !(Members(l) <= known[u]) {
      assert Members(l) - known[u] != {};
      assert Times(|NewOnes(known[u], l)|, |peers[u]|) >= |peers[u]|;
    }
  }

  /** A delivery lowers what is in flight and owed by at least one. */
  lemma DeliveryPays(peers: Graph, known: seq<set<Address>>, items: set<Address>, v: nat, l: seq<Address>)
    requires |known| == |peers| && v < |peers| && Members(l) <= items
    ensures Debt<Address>(peers, known[v := known[v] + Members(l)], items) + |Send(peers[v], NewOnes(known[v], l))| <= Debt<Address>(peers, known, items)
  {
    LearnListPays(peers, known, items, v, l);
    SendContents(peers[v], NewOnes(known[v], l));
    if NewOnes(known[v], l) != [] {
      assert Times(|NewOnes(known[v], l)|, |peers[v]|) >= |peers[v]|;
    }
  }

  lemma AddKeepsInv(s: State, peers: Graph, u: nat, l: seq<Address>)
    requires Inv(s, peers) && u < |peers|
    ensures Inv(Apply(s, Add(u, l), peers), peers)
  {
    SendContents(peers[u], l);
    SendCovers(peers, s.known, s.inflight, u, l, l);
    AddBounded(peers, s.known, s.introduced, |s.inflight|, s.delivered, s.repeats, u, l);
  }

  lemma DeliverKeepsInv(s: State, peers: Graph, v: nat, l: seq<Address>)
    requires Inv(s, peers) && v < |peers| && (v, l) in s.inflight
    ensures Inv(Apply(s, Deliver(v, l), peers), peers)
    ensures Pending(Apply(s, Deliver(v, l), peers), peers) < Pending(s, peers)
  {
    var added := NewOnes(s.known[v], l);
    NewOnesContents(s.known[v], l);
    SendContents(peers[v], added);
    SendCovers(peers, s.known, s.inflight, v, l, added);
    TakeCovers(peers, s.known[v := s.known[v] + Members(l)], s.inflight + Send(peers[v], added), v, l);
    TakeAndSend(s.inflight, (v, l), Send(peers[v], added));
    DeliveryPays(peers, s.known, s.introduced, v, l);
  }

  /** What is still in flight or owed. */
  ghost function Pending(s: State, peers: Graph): nat
    requires |s.known| == |peers|
  {
    |s.inflight| + Debt<Address>(peers, s.known, s.introduced)
  }

  /** Runs from nodes without addresses. Steps that are not enabled are skipped. */
  ghost function Run(peers: Graph, steps: seq<Step>): (s: State)
    ensures |s.known| == |peers|
  {
    if steps == [] then Initial(|peers|)
    else
      var s := Run(peers, steps[..|steps| - 1]);
      var step := steps[|steps| - 1];
      if Enabled(s, step) then Apply(s, step, peers) else s
  }

  lemma {:induction false} RunKeeps(peers: Graph, steps: seq<Step>)
    requires ValidGraph(peers)
    ensures Inv(Run(peers, steps), peers)
  {
    if steps == [] {
      InitialInv(peers);
    } else {
      var s, step := Run(peers, steps[..|steps| - 1]), steps[|steps| - 1];
      RunKeeps(peers, steps[..|steps| - 1]);
      if Enabled(s, step) {
        match step
        case Add(u, l) => AddKeepsInv(s, peers, u, l);
        case Deliver(v, l) => DeliverKeepsInv(s, peers, v, l);
      }
    }
  }

  /** In every run, an address of a node is with each of its peers or on its way there. */
  lemma HeldOrComing(peers: Graph, steps: seq<Step>, u: nat, v: nat, a: Address)
    requires ValidGraph(peers) && u < |peers| && v in peers[u] && a in Run(peers, steps).known[u]
    ensures a in Run(peers, steps).known[v] || Coming(Run(peers, steps).inflight, v, a)
  {
    RunKeeps(peers, steps);
  }

  /** The addresses the enabled adds of a run named. */
  ghost function Named(steps: seq<Step>, n: nat): set<Address> {
    if steps == [] then {}
    else
      var step := steps[|steps| - 1];
      Named(steps[..|steps| - 1], n) + if step.Add? && step.node < n then Members(step.addresses) else {}
  }

  /** No address appears that no add named. */
  lemma {:induction false} NothingInvented(peers: Graph, steps: seq<Step>, v: nat)
    requires ValidGraph(peers) && v < |peers|
    ensures Run(peers, steps).introduced == Named(steps, |peers|)
    ensures Run(peers, steps).known[v] <= Named(steps, |peers|)
  {
    if steps != [] {
      NothingInvented(peers, steps[..|steps| - 1], v);
    }
    RunKeeps(peers, steps);
  }

  /** Gossip terminates: every delivery lowers what is pending, and in every run the deliveries
      and what is pending stay within one message per edge and address, plus the repeats. */
  lemma TrafficBounded(peers: Graph, steps: seq<Step>)
    requires ValidGraph(peers)
    ensures var s := Run(peers, steps);
            && s.delivered + Pending(s, peers) <= Times(|s.introduced|, Edges(peers)) + s.repeats
            && forall v, l :: (v, l) in s.inflight ==> v < |peers| && Pending(Apply(s, Deliver(v, l), peers), peers) < Pending(s, peers)
  {
    var s := Run(peers, steps);
    RunKeeps(peers, steps);
    forall v, l | (v, l) in s.inflight ensures v < |peers| && Pending(Apply(s, Deliver(v, l), peers), peers) < Pending(s, peers) {
      DeliverKeepsInv(s, peers, v, l);
    }
  }

  /** At quiescence every node has, along every path, the addresses of the node it starts from. */
  lemma QuiescentConverged(peers: Graph, steps: seq<Step>, p: seq<nat>)
    requires ValidGraph(peers) && Path(peers, p)
    requires Run(peers, steps).inflight == multiset{}
    ensures Run(peers, steps).known[p[0]] <= Run(peers, steps).known[p[|p| - 1]]
  {
    var s := Run(peers, steps);
    RunKeeps(peers, steps);
    forall u, v | 0 <= u < |peers| && 0 <= v < |peers| && v in peers[u] ensures s.known[u] <= s.known[v] {
      forall a | a in s.known[u] ensures a in s.known[v] {
        assert !Coming(s.inflight, v, a);
      }
    }
    ClosedAlongPath<Address>(peers, s.known, p);
  }

  lemma StepForgetsNothing(s: State, step: Step, peers: Graph, v: nat)
    requires step.node < |s.known| == |peers| && v < |peers|
    ensures s.known[v] <= Apply(s, step, peers).known[v]
  {
  }

  /** Nodes forget no address. */
  lemma {:induction false} NothingForgotten(peers: Graph, steps: seq<Step>, i: nat, v: nat)
    requires i <= |steps| && v < |peers|
    ensures Run(peers, steps[..i]).known[v] <= Run(peers, steps).known[v]
  {
    if i == |steps| {
      assert steps[..i] == steps;
    } else {
      var front, step := steps[..|steps| - 1], steps[|steps| - 1];
      assert front[..i] == steps[..i];
      NothingForgotten(peers, front, i, v);
      if Enabled(Run(peers, front), step) {
        StepForgetsNothing(Run(peers, front), step, peers, v);
      }
    }
  }

  lemma AddedHeld(peers: Graph, steps: seq<Step>, i: nat)
    requires i < |steps| && steps[i].Add? && steps[i].node < |peers|
    ensures Members(steps[i].addresses) <= Run(peers, steps[..i + 1]).known[steps[i].node]
  {
    assert steps[..i + 1][..i] == steps[..i];
  }

  /** What an operator adds anywhere in a run has, once nothing is in flight, reached every node
      along every path from there. */
  lemma AddedReachesAll(peers: Graph, steps: seq<Step>, p: seq<nat>, i: nat)
    requires ValidGraph(peers) && Path(peers, p) && i < |steps| && steps[i].Add? && steps[i].node == p[0]
    requires Run(peers, steps).inflight == multiset{}
    ensures Members(steps[i].addresses) <= Run(peers, steps).known[p[|p| - 1]]
  {
    AddedHeld(peers, steps, i);
    NothingForgotten(peers, steps, i + 1, p[0]);
    QuiescentConverged(peers, steps, p);
  }
}
