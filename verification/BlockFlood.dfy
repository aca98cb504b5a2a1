/** Flooding of head blocks over any finite peer graph. A node that adopts a block, its own or
    a received one, sends it to all its peers; messages are delivered in any order, none is
    lost, and the download path is not part of these runs. */
module BlockFlood {
  import opened BlockDb
  import opened Flood

  /** `delivered` counts deliveries; `repeats` counts the messages sent for proposals at a height
      their proposer had already indexed. */
  datatype State = State(
    dbs: seq<Db>,
    inflight: multiset<(nat, Block)>,
    produced: set<Block>,
    delivered: nat,
    repeats: nat)

  datatype Step =
    | Genesis(node: nat)
    | Propose(node: nat, block: Block)
    | Deliver(node: nat, block: Block)

  function Initial(n: nat): State {
    State(seq(n, _ => EMPTY), multiset{}, {}, 0, 0)
  }

  /** A genesis block is created only by a node without a latest block. A proposal is one height
      above a block its proposer has, the latest when it started to wait, and has a hash no
      block has had so far. */
  ghost predicate Enabled(s: State, step: Step, genesis: Block) {
    step.node < |s.dbs| &&
    match step
    case Genesis(u) => GetLatest(s.dbs[u]).None? && genesis.hash != [] && (forall b :: b in s.produced && b.hash == genesis.hash ==> b == genesis)
    case Propose(u, b) =>
      && (exists id :: id in s.dbs[u].blocks && b.index == (s.dbs[u].blocks[id].index + 1) % 0x1_0000_0000_0000_0000)
      && b.hash != [] && (forall c :: c in s.produced ==> c.hash != b.hash)
    case Deliver(v, b) => (v, b) in s.inflight
  }

  /** A node stores its own block and sends it to its peers. */
  function Produce(s: State, peers: Graph, u: nat, b: Block): State
    requires u < |s.dbs| == |peers|
  {
    State(s.dbs[u := Adopt(s.dbs[u], b)], s.inflight + Broadcast(peers[u], b), s.produced + {b}, s.delivered,
      s.repeats + if b.index in s.dbs[u].index then |peers[u]| else 0)
  }

  function Apply(s: State, step: Step, peers: Graph, genesis: Block): State
    requires step.node < |s.dbs| == |peers|
    requires step.Deliver? ==> (step.node, step.block) in s.inflight
  {
    match step
    case Genesis(u) => Produce(s, peers, u, genesis)
    case Propose(u, b) => Produce(s, peers, u, b)
    case Deliver(v, b) =>
      var rest := s.inflight - multiset{(v, b)};
      s.(dbs := s.dbs[v := Gossip(s.dbs[v], b)],
         inflight := if Accepts(s.dbs[v], b) then rest + Broadcast(peers[v], b) else rest,
         delivered := s.delivered + 1)
  }

  /** The heights each node has indexed, and all heights produced. */
  function Known(dbs: seq<Db>): (known: seq<set<nat>>)
    ensures |known| == |dbs| && forall i :: 0 <= i < |dbs| ==> known[i] == dbs[i].index.Keys
  {
    seq(|dbs|, i requires 0 <= i < |dbs| => dbs[i].index.Keys)
  }

  function Height(b: Block): nat {
    b.index
  }

  function Heights(produced: set<Block>): set<nat> {
    set b | b in produced :: Height(b)
  }

  lemma HeightsAdd(produced: set<Block>, b: Block)
    ensures Heights(produced + {b}) == Heights(produced) + {Height(b)}
    ensures b in produced ==> Height(b) in Heights(produced) && produced + {b} == produced
  {
  }

  ghost predicate ByHash(produced: set<Block>) {
    && (forall b, c :: b in produced && c in produced && b.hash == c.hash ==> b == c)
    && (forall b :: b in produced ==> b.hash != [])
  }

  ghost predicate NodeInv(db: Db, produced: set<Block>) {
    Coherent(db) && forall id :: id in db.blocks ==> db.blocks[id] in produced
  }

  /** A block of height h is on its way to v. */
  ghost predicate Coming(inflight: multiset<(nat, Block)>, v: nat, h: nat) {
    exists b :: (v, b) in inflight && b.index == h
  }

  /** Whatever height a node has, each of its peers has it too or will get a block of it. */
  ghost predicate Covered(peers: Graph, known: seq<set<nat>>, inflight: multiset<(nat, Block)>) {
    |known| == |peers| &&
    forall u, v, h :: 0 <= u < |peers| && 0 <= v < |peers| && v in peers[u] && h in known[u] ==> h in known[v] || Coming(inflight, v, h)
  }

  ghost predicate NodesInv(dbs: seq<Db>, produced: set<Block>) {
    ByHash(produced) && forall v :: 0 <= v < |dbs| ==> NodeInv(dbs[v], produced)
  }

  ghost predicate MessagesInv(inflight: multiset<(nat, Block)>, n: nat, produced: set<Block>) {
    forall m :: m in inflight ==> m.0 < n && m.1 in produced
  }

  ghost predicate Inv(s: State, peers: Graph) {
    && |s.dbs| == |peers| && ValidGraph(peers)
    && NodesInv(s.dbs, s.produced)
    && MessagesInv(s.inflight, |s.dbs|, s.produced)
    && Covered(peers, Known(s.dbs), s.inflight)
    && Balanced<nat>(peers, Known(s.dbs), Heights(s.produced), |s.inflight|, s.delivered, s.repeats)
  }

  lemma KnownAreHeights(db: Db, produced: set<Block>)
    requires NodeInv(db, produced)
    ensures db.index.Keys <= Heights(produced)
  {
    forall h | h in db.index ensures h in Heights(produced) {
      var b := db.blocks[db.index[h]];
      assert b in produced && Height(b) == h;
    }
  }

  lemma InitialInv(peers: Graph)
    requires ValidGraph(peers)
    ensures Inv(Initial(|peers|), peers)
  {
    var s := Initial(|peers|);
    NothingOwed<nat>(peers, Known(s.dbs), Heights(s.produced), |peers|);
    assert Heights(s.produced) == {};
  }

  lemma SendCovers(peers: Graph, known: seq<set<nat>>, inflight: multiset<(nat, Block)>, u: nat, b: Block)
    requires Covered(peers, known, inflight) && u < |peers|
    ensures Covered(peers, known[u := known[u] + {Height(b)}], inflight + Broadcast(peers[u], b))
  {
    BroadcastContents(peers[u], b);
    var known', inflight' := known[u := known[u] + {Height(b)}], inflight + Broadcast(peers[u], b);
    forall w, v, h | 0 <= w < |peers| && 0 <= v < |peers| && v in peers[w] && h in known'[w] ensures h in known'[v] || Coming(inflight', v, h) {
      if h in known[w] {
        if Coming(inflight, v, h) {
          var c :| (v, c) in inflight && c.index == h;
          assert (v, c) in inflight';
        }
      } else {
        assert (v, b) in inflight';
      }
    }
  }

  lemma ReceiveCovers(peers: Graph, known: seq<set<nat>>, inflight: multiset<(nat, Block)>, v: nat, b: Block)
    requires Covered(peers, known, inflight) && (v, b) in inflight && v < |peers| && b.index in known[v]
    ensures Covered(peers, known, inflight - multiset{(v, b)})
  {
    forall w, x, h | 0 <= w < |peers| && 0 <= x < |peers| && x in peers[w] && h in known[w] ensures h in known[x] || Coming(inflight - multiset{(v, b)}, x, h) {
      if h !in known[x] {
        var c :| (x, c) in inflight && c.index == h;
        assert (x, c) != (v, b);
        assert (x, c) in inflight - multiset{(v, b)};
      }
    }
  }

  /** The block may be produced at u: nothing known under its hash is another block. */
  ghost predicate Producible(s: State, u: nat, b: Block) {
    && u < |s.dbs| && b.hash != [] && b.hash !in s.dbs[u].blocks
    && (forall c :: c in s.produced && c.hash == b.hash ==> c == b)
  }

  lemma KnownReplaced(dbs: seq<Db>, v: nat, db: Db, h: nat)
    requires v < |dbs| && db.index.Keys == dbs[v].index.Keys + {h}
    ensures Known(dbs[v := db]) == Known(dbs)[v := Known(dbs)[v] + {h}]
  {
  }

  lemma KnownUpdated(dbs: seq<Db>, v: nat, b: Block)
    requires v < |dbs|
    ensures Adopt(dbs[v], b).index.Keys == dbs[v].index.Keys + {Height(b)}
    ensures Known(dbs[v := Adopt(dbs[v], b)]) == Known(dbs)[v := Known(dbs)[v] + {Height(b)}]
  {
    assert Adopt(dbs[v], b).index.Keys == dbs[v].index.Keys + {Height(b)};
    KnownReplaced(dbs, v, Adopt(dbs[v], b), Height(b));
  }

  lemma ProduceKeepsInv(s: State, peers: Graph, u: nat, b: Block)
    requires Inv(s, peers) && Producible(s, u, b)
    ensures Inv(Produce(s, peers, u, b), peers)
  {
    var t := Produce(s, peers, u, b);
    assert NodesInv(t.dbs, t.produced) by {
      ProduceKeepsNodes(s.dbs, s.produced, u, b);
    }
    assert MessagesInv(t.inflight, |t.dbs|, t.produced) by {
      SentMessages(s.inflight, peers, s.produced, u, b);
    }
    assert Known(t.dbs) == Known(s.dbs)[u := Known(s.dbs)[u] + {Height(b)}] by {
      KnownUpdated(s.dbs, u, b);
    }
    assert Covered(peers, Known(t.dbs), t.inflight) by {
      SendCovers(peers, Known(s.dbs), s.inflight, u, b);
    }
    ProduceBalances(s, peers, u, b);
  }

  lemma SentMessages(inflight: multiset<(nat, Block)>, peers: Graph, produced: set<Block>, u: nat, b: Block)
    requires ValidGraph(peers) && u < |peers| && MessagesInv(inflight, |peers|, produced)
    ensures MessagesInv(inflight + Broadcast(peers[u], b), |peers|, produced + {b})
    ensures |inflight + Broadcast(peers[u], b)| == |inflight| + |peers[u]|
  {
    BroadcastContents(peers[u], b);
  }

  lemma ProduceBalances(s: State, peers: Graph, u: nat, b: Block)
    requires Inv(s, peers) && Producible(s, u, b)
    ensures var t := Produce(s, peers, u, b);
            |t.dbs| == |peers| && Balanced<nat>(peers, Known(t.dbs), Heights(t.produced), |t.inflight|, t.delivered, t.repeats)
  {
    var t := Produce(s, peers, u, b);
    var known := Known(s.dbs);
    assert forall v :: 0 <= v < |known| ==> known[v] <= Heights(s.produced) by {
      forall v | 0 <= v < |known| ensures known[v] <= Heights(s.produced) {
        KnownAreHeights(s.dbs[v], s.produced);
      }
    }
    assert Known(t.dbs) == known[u := known[u] + {Height(b)}] by { KnownUpdated(s.dbs, u, b); }
    assert |t.inflight| == |s.inflight| + |peers[u]| by { SentMessages(s.inflight, peers, s.produced, u, b); }
    HeightsAdd(s.produced, b);
    BalancedSend<nat>(peers, known, Heights(s.produced), |s.inflight|, s.delivered, s.repeats, u, Height(b));
  }

  lemma ProduceKeepsNodes(dbs: seq<Db>, produced: set<Block>, u: nat, b: Block)
    requires NodesInv(dbs, produced) && u < |dbs| && b.hash != [] && b.hash !in dbs[u].blocks
    requires forall c :: c in produced && c.hash == b.hash ==> c == b
    ensures NodesInv(dbs[u := Adopt(dbs[u], b)], produced + {b})
  {
    var dbs' := dbs[u := Adopt(dbs[u], b)];
    assert ByHash(produced + {b});
    forall v | 0 <= v < |dbs'| ensures NodeInv(dbs'[v], produced + {b}) {
      NodeGrows(dbs[v], produced, b);
    }
  }

  lemma NodeGrows(db: Db, produced: set<Block>, b: Block)
    requires NodeInv(db, produced)
    ensures NodeInv(db, produced + {b})
    ensures b.hash != [] && b.hash !in db.blocks ==> NodeInv(Adopt(db, b), produced + {b})
  {
    if b.hash != [] && b.hash !in db.blocks {
      AdoptKeepsCoherent(db, b);
    }
  }

  /** After a delivery, accepted or not, the receiver has the block's height; it accepts exactly
      when it lacked the height. */
  lemma AcceptsMissingHeights(db: Db, produced: set<Block>, b: Block)
    requires NodeInv(db, produced) && ByHash(produced) && b in produced
    ensures Accepts(db, b) <==> b.index !in db.index
    ensures NodeInv(Gossip(db, b), produced)
  {
    AcceptsIff(db, b);
    GossipKeepsCoherentIff(db, b);
    if b.hash in db.blocks {
      assert db.blocks[b.hash] == b;
    }
  }

  lemma FewerMessages(inflight: multiset<(nat, Block)>, m: (nat, Block), n: nat, produced: set<Block>)
    requires MessagesInv(inflight, n, produced)
    ensures MessagesInv(inflight - multiset{m}, n, produced)
  {
  }

  lemma NodeReplaced(dbs: seq<Db>, produced: set<Block>, v: nat, db: Db)
    requires NodesInv(dbs, produced) && v < |dbs| && NodeInv(db, produced)
    ensures NodesInv(dbs[v := db], produced)
  {
  }

  lemma RejectBalances(peers: Graph, known: seq<set<nat>>, produced: set<Block>, inflight: nat, delivered: nat, repeats: nat, v: nat, b: Block)
    requires Balanced<nat>(peers, known, Heights(produced), inflight, delivered, repeats)
    requires v < |peers| && inflight > 0 && b in produced && Height(b) in known[v]
    ensures Balanced<nat>(peers, known, Heights(produced), inflight - 1, delivered + 1, repeats)
  {
    HeightsAdd(produced, b);
    BalancedReceive<nat>(peers, known, Heights(produced), inflight, delivered, repeats, v, Height(b));
  }

  /** A delivery the receiver rejects: it has the height already. */
  lemma RejectKeepsInv(s: State, peers: Graph, v: nat, b: Block)
    requires Inv(s, peers) && (v, b) in s.inflight && Height(b) in Known(s.dbs)[v]
    ensures Inv(State(s.dbs, s.inflight - multiset{(v, b)}, s.produced, s.delivered + 1, s.repeats), peers)
  {
    TakeAndSend(s.inflight, (v, b), multiset{});
    FewerMessages(s.inflight, (v, b), |s.dbs|, s.produced);
    ReceiveCovers(peers, Known(s.dbs), s.inflight, v, b);
    RejectBalances(peers, Known(s.dbs), s.produced, |s.inflight|, s.delivered, s.repeats, v, b);
  }

  lemma AcceptCovers(peers: Graph, known: seq<set<nat>>, inflight: multiset<(nat, Block)>, v: nat, b: Block)
    requires Covered(peers, known, inflight) && v < |peers| && (v, b) in inflight
    ensures Covered(peers, known[v := known[v] + {Height(b)}], inflight - multiset{(v, b)} + Broadcast(peers[v], b))
  {
    var sent := Broadcast(peers[v], b);
    SendCovers(peers, known, inflight, v, b);
    ReceiveCovers(peers, known[v := known[v] + {Height(b)}], inflight + sent, v, b);
    TakeAndSend(inflight, (v, b), sent);
  }

  lemma AcceptBalances(peers: Graph, known: seq<set<nat>>, produced: set<Block>, inflight: nat, delivered: nat, repeats: nat, v: nat, b: Block)
    requires Balanced<nat>(peers, known, Heights(produced), inflight, delivered, repeats)
    requires v < |peers| && inflight > 0 && b in produced && Height(b) !in known[v]
    ensures Balanced<nat>(peers, known[v := known[v] + {Height(b)}], Heights(produced), inflight - 1 + |peers[v]|, delivered + 1, repeats)
  {
    HeightsAdd(produced, b);
    BalancedReceive<nat>(peers, known, Heights(produced), inflight, delivered, repeats, v, Height(b));
  }

  /** A delivery the receiver accepts: its store becomes `db`, and it sends the block on. */
  lemma AcceptKeepsInv(s: State, peers: Graph, v: nat, b: Block, db: Db)
    requires Inv(s, peers) && (v, b) in s.inflight && Height(b) !in Known(s.dbs)[v]
    requires NodeInv(db, s.produced) && db.index.Keys == s.dbs[v].index.Keys + {Height(b)}
    ensures Inv(State(s.dbs[v := db], s.inflight - multiset{(v, b)} + Broadcast(peers[v], b), s.produced, s.delivered + 1, s.repeats), peers)
  {
    NodeReplaced(s.dbs, s.produced, v, db);
    PassedOn(s.inflight, peers, s.produced, v, b);
    KnownReplaced(s.dbs, v, db, Height(b));
    AcceptCovers(peers, Known(s.dbs), s.inflight, v, b);
    TakeAndSend(s.inflight, (v, b), multiset{});
    AcceptBalances(peers, Known(s.dbs), s.produced, |s.inflight|, s.delivered, s.repeats, v, b);
  }

  lemma PassedOn(inflight: multiset<(nat, Block)>, peers: Graph, produced: set<Block>, v: nat, b: Block)
    requires ValidGraph(peers) && v < |peers| && (v, b) in inflight && MessagesInv(inflight, |peers|, produced)
    ensures MessagesInv(inflight - multiset{(v, b)} + Broadcast(peers[v], b), |peers|, produced)
    ensures |inflight - multiset{(v, b)} + Broadcast(peers[v], b)| == |inflight| - 1 + |peers[v]|
  {
    assert b in produced;
    HeightsAdd(produced, b);
    TakeAndSend(inflight, (v, b), multiset{});
    FewerMessages(inflight, (v, b), |peers|, produced);
    SentMessages(inflight - multiset{(v, b)}, peers, produced, v, b);
  }

  /** The two outcomes of a delivery. */
  lemma DeliverIs(s: State, peers: Graph, genesis: Block, v: nat, b: Block)
    requires v < |s.dbs| == |peers| && (v, b) in s.inflight
    ensures Apply(s, Deliver(v, b), peers, genesis) ==
            if Accepts(s.dbs[v], b) then
              State(s.dbs[v := Adopt(s.dbs[v], b)], s.inflight - multiset{(v, b)} + Broadcast(peers[v], b), s.produced, s.delivered + 1, s.repeats)
            else
              State(s.dbs, s.inflight - multiset{(v, b)}, s.produced, s.delivered + 1, s.repeats)
  {
    assert s.dbs[v := s.dbs[v]] == s.dbs;
  }

  /** What the receiver of a message can rely on. */
  lemma Receives(s: State, peers: Graph, v: nat, b: Block)
    requires Inv(s, peers) && (v, b) in s.inflight
    ensures v < |s.dbs| == |peers| && b in s.produced
    ensures Accepts(s.dbs[v], b) <==> Height(b) !in Known(s.dbs)[v]
    ensures Accepts(s.dbs[v], b) ==> NodeInv(Adopt(s.dbs[v], b), s.produced)
    ensures Adopt(s.dbs[v], b).index.Keys == s.dbs[v].index.Keys + {Height(b)}
  {
    assert NodeInv(s.dbs[v], s.produced);
    AcceptsMissingHeights(s.dbs[v], s.produced, b);
    KnownUpdated(s.dbs, v, b);
  }

  lemma DeliverKeepsInv(s: State, peers: Graph, genesis: Block, v: nat, b: Block)
    requires Inv(s, peers) && (v, b) in s.inflight
    ensures v < |s.dbs| && Inv(Apply(s, Deliver(v, b), peers, genesis), peers)
    ensures Apply(s, Deliver(v, b), peers, genesis).delivered == s.delivered + 1
  {
    Receives(s, peers, v, b);
    DeliverIs(s, peers, genesis, v, b);
    if Accepts(s.dbs[v], b) {
      AcceptKeepsInv(s, peers, v, b, Adopt(s.dbs[v], b));
    } else {
      RejectKeepsInv(s, peers, v, b);
    }
  }

  lemma StepKeepsInv(s: State, step: Step, peers: Graph, genesis: Block)
    requires Inv(s, peers) && Enabled(s, step, genesis)
    ensures Inv(Apply(s, step, peers, genesis), peers)
  {
    assert NodeInv(s.dbs[step.node], s.produced);
    match step
    case Genesis(u) => ProduceKeepsInv(s, peers, u, genesis);
    case Propose(u, b) => ProduceKeepsInv(s, peers, u, b);
    case Deliver(v, b) => DeliverKeepsInv(s, peers, genesis, v, b);
  }

  /** Runs from empty stores. Steps that are not enabled are skipped. */
  ghost function Run(peers: Graph, genesis: Block, steps: seq<Step>): (s: State)
    ensures |s.dbs| == |peers|
  {
    if steps == [] then Initial(|peers|)
    else
      var s := Run(peers, genesis, steps[..|steps| - 1]);
      var step := steps[|steps| - 1];
      if Enabled(s, step, genesis) then Apply(s, step, peers, genesis) else s
  }

  lemma {:induction false} RunKeeps(peers: Graph, genesis: Block, steps: seq<Step>)
    requires ValidGraph(peers)
    ensures Inv(Run(peers, genesis, steps), peers)
  {
    if steps == [] {
      InitialInv(peers);
    } else {
      var s := Run(peers, genesis, steps[..|steps| - 1]);
      RunKeeps(peers, genesis, steps[..|steps| - 1]);
      if Enabled(s, steps[|steps| - 1], genesis) {
        StepKeepsInv(s, steps[|steps| - 1], peers, genesis);
      }
    }
  }

  /** What is still to come: every delivery uses up exactly one unit. */
  ghost function Pending(s: State, peers: Graph): nat
    requires |s.dbs| == |peers|
  {
    |s.inflight| + Debt<nat>(peers, Known(s.dbs), Heights(s.produced))
  }

  lemma BalanceOfInv(s: State, peers: Graph)
    requires Inv(s, peers)
    ensures s.delivered + Pending(s, peers) == Times(|Heights(s.produced)|, Edges(peers)) + s.repeats
  {
  }

  /** Traffic is conserved: in every run the deliveries made and those still to come are one per
      edge and height produced, plus the repeats of proposals at heights already indexed. */
  lemma TrafficConserved(peers: Graph, genesis: Block, steps: seq<Step>)
    requires ValidGraph(peers)
    ensures var s := Run(peers, genesis, steps);
            s.delivered + Pending(s, peers) == Times(|Heights(s.produced)|, Edges(peers)) + s.repeats
  {
    RunKeeps(peers, genesis, steps);
    BalanceOfInv(Run(peers, genesis, steps), peers);
  }

  lemma DeliveryPays(s: State, peers: Graph, genesis: Block, v: nat, b: Block)
    requires Inv(s, peers) && (v, b) in s.inflight
    ensures var t := Apply(s, Deliver(v, b), peers, genesis);
            Inv(t, peers) && t.delivered == s.delivered + 1 && Pending(t, peers) == Pending(s, peers) - 1
  {
    BalanceOfInv(s, peers);
    DeliverKeepsInv(s, peers, genesis, v, b);
    BalanceOfInv(Apply(s, Deliver(v, b), peers, genesis), peers);
  }

  /** Flooding terminates: each delivery lowers what is still to come by exactly one. */
  lemma DeliveryUsesOne(peers: Graph, genesis: Block, steps: seq<Step>, v: nat, b: Block)
    requires ValidGraph(peers) && (v, b) in Run(peers, genesis, steps).inflight && v < |peers|
    ensures var s := Run(peers, genesis, steps);
            Pending(Apply(s, Deliver(v, b), peers, genesis), peers) == Pending(s, peers) - 1
  {
    RunKeeps(peers, genesis, steps);
    DeliveryPays(Run(peers, genesis, steps), peers, genesis, v, b);
  }

  lemma QuiescentClosed(s: State, peers: Graph)
    requires Inv(s, peers) && s.inflight == multiset{}
    ensures Closed<nat>(peers, Known(s.dbs))
  {
    forall u, v | 0 <= u < |peers| && 0 <= v < |peers| && v in peers[u] ensures Known(s.dbs)[u] <= Known(s.dbs)[v] {
      forall h | h in Known(s.dbs)[u] ensures h in Known(s.dbs)[v] {
        assert !Coming(s.inflight, v, h);
      }
    }
  }

  /** At quiescence every node has, along every path, the heights of the node it starts from. */
  lemma QuiescentConverged(peers: Graph, genesis: Block, steps: seq<Step>, p: seq<nat>)
    requires ValidGraph(peers) && Path(peers, p)
    requires Run(peers, genesis, steps).inflight == multiset{}
    ensures var s := Run(peers, genesis, steps);
            forall h :: h in s.dbs[p[0]].index ==> h in s.dbs[p[|p| - 1]].index
  {
    var s := Run(peers, genesis, steps);
    RunKeeps(peers, genesis, steps);
    QuiescentClosed(s, peers);
    ClosedAlongPath<nat>(peers, Known(s.dbs), p);
    assert s.dbs[p[0]].index.Keys <= s.dbs[p[|p| - 1]].index.Keys;
  }

  lemma StepKeepsHeights(s: State, step: Step, peers: Graph, genesis: Block, v: nat)
    requires |s.dbs| == |peers| && v < |peers| && Enabled(s, step, genesis)
    ensures s.dbs[v].index.Keys <= Apply(s, step, peers, genesis).dbs[v].index.Keys
  {
  }

  /** Nodes forget no height. */
  lemma {:induction false} HeightsStay(peers: Graph, genesis: Block, steps: seq<Step>, i: nat, v: nat)
    requires i <= |steps| && v < |peers|
    ensures Run(peers, genesis, steps[..i]).dbs[v].index.Keys <= Run(peers, genesis, steps).dbs[v].index.Keys
  {
    if i == |steps| {
      assert steps[..i] == steps;
    } else {
      var front, step := steps[..|steps| - 1], steps[|steps| - 1];
      assert front[..i] == steps[..i];
      HeightsStay(peers, genesis, front, i, v);
      if Enabled(Run(peers, genesis, front), step, genesis) {
        StepKeepsHeights(Run(peers, genesis, front), step, peers, genesis, v);
      }
    }
  }

  /** If only one block was ever produced at a height, then at quiescence every node reachable
      from one that has the height has that block. */
  lemma SoleBlockEverywhere(peers: Graph, genesis: Block, steps: seq<Step>, p: seq<nat>, b: Block)
    requires ValidGraph(peers) && Path(peers, p)
    requires Run(peers, genesis, steps).inflight == multiset{}
    requires b in Run(peers, genesis, steps).produced && b.index in Run(peers, genesis, steps).dbs[p[0]].index
    requires forall c :: c in Run(peers, genesis, steps).produced && c.index == b.index ==> c == b
    ensures LookupIndex(Run(peers, genesis, steps).dbs[p[|p| - 1]], b.index) == Indexed(Some(b))
  {
    var s := Run(peers, genesis, steps);
    RunKeeps(peers, genesis, steps);
    QuiescentConverged(peers, genesis, steps, p);
    var v := p[|p| - 1];
    assert NodeInv(s.dbs[v], s.produced);
    var id := s.dbs[v].index[b.index];
    assert s.dbs[v].blocks[id] in s.produced;
  }

  /** The same from the producer: a proposal alone at its height is, at quiescence, the block
      that every node reachable from its proposer has there. */
  lemma ProposalReachesAll(peers: Graph, genesis: Block, steps: seq<Step>, p: seq<nat>, i: nat, b: Block)
    requires ValidGraph(peers) && Path(peers, p) && i < |steps| && steps[i] == Propose(p[0], b)
    requires Enabled(Run(peers, genesis, steps[..i]), steps[i], genesis)
    requires Run(peers, genesis, steps).inflight == multiset{}
    requires forall c :: c in Run(peers, genesis, steps).produced && c.index == b.index ==> c == b
    ensures LookupIndex(Run(peers, genesis, steps).dbs[p[|p| - 1]], b.index) == Indexed(Some(b))
  {
    var s := Run(peers, genesis, steps);
    assert steps[..i + 1][..i] == steps[..i];
    assert b.index in Run(peers, genesis, steps[..i + 1]).dbs[p[0]].index;
    HeightsStay(peers, genesis, steps, i + 1, p[0]);
    RunKeeps(peers, genesis, steps);
    assert NodeInv(s.dbs[p[0]], s.produced);
    assert s.dbs[p[0]].blocks[s.dbs[p[0]].index[b.index]] == b;
    SoleBlockEverywhere(peers, genesis, steps, p, b);
  }

  /** First writer wins: no delivery, nor genesis, changes the block a node has at a height, and
      a proposal does so only at a height its proposer had already indexed. */
  lemma FirstWriterWins(peers: Graph, genesis: Block, steps: seq<Step>, step: Step, v: nat, h: nat)
    requires ValidGraph(peers) && v < |peers| && Enabled(Run(peers, genesis, steps), step, genesis)
    requires h in Run(peers, genesis, steps).dbs[v].index
    ensures var s := Run(peers, genesis, steps); var t := Apply(s, step, peers, genesis);
            && h in t.dbs[v].index
            && (t.dbs[v].index[h] != s.dbs[v].index[h] <==> step.Propose? && step.node == v && step.block.index == h)
  {
    var s := Run(peers, genesis, steps);
    RunKeeps(peers, genesis, steps);
    assert NodeInv(s.dbs[v], s.produced) && NodeInv(s.dbs[step.node], s.produced);
    if step.Deliver? {
      GossipKeepsCoherentIff(s.dbs[step.node], step.block);
    }
  }
}
