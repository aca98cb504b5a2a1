/** Flooding of referer blocks. A node remembers the last referer block it passed on, compares
    others with it by hash, and forgets it whenever a head block arrives. The blocks leaders
    make have no hash at all, so to every node they are all the same block: traffic is bounded,
    but when there are two of them nodes need not agree. */
module RefererFlood {
  import opened Bytes
  import opened BlockDb
  import opened Flood

  datatype Referer = Referer(hash: Id, ordered: seq<Ordered>)

  /** `sent` counts the messages of proposals, and the messages a node may have to send again
      because it forgot its referer block. */
  datatype State = State(
    current: seq<Option<Referer>>,
    inflight: multiset<(nat, Referer)>,
    delivered: nat,
    sent: nat)

  datatype Step =
    | Propose(node: nat, referer: Referer)  // a leader broadcasts a referer block
    | Deliver(node: nat, referer: Referer)
    | Forget(node: nat)             // a head block arrives

  function Initial(n: nat): State {
    State(seq(n, _ => None), multiset{}, 0, 0)
  }

  /** What the handler does: the block to remember, and whether it is passed on. */
  predicate PassesOn(current: Option<Referer>, r: Referer) {
    current.None? || current.value.hash != r.hash
  }

  ghost predicate Enabled(s: State, step: Step) {
    step.node < |s.current| && (step.Deliver? ==> (step.node, step.referer) in s.inflight)
  }

  function Apply(s: State, step: Step, peers: Graph): State
    requires step.node < |s.current| == |peers|
  {
    match step
    case Propose(u, r) =>
      s.(inflight := s.inflight + Broadcast(peers[u], r), sent := s.sent + |peers[u]|)
    case Deliver(v, r) =>
      var rest := s.inflight - multiset{(v, r)};
      if PassesOn(s.current[v], r) then
        s.(current := s.current[v := Some(r)], inflight := rest + Broadcast(peers[v], r), delivered := s.delivered + 1)
      else
        s.(inflight := rest, delivered := s.delivered + 1)
    case Forget(v) =>
      s.(current := s.current[v := None], sent := s.sent + if s.current[v].Some? then |peers[v]| else 0)
  }

  /** A step that is not enabled is skipped. */
  ghost function Next(s: State, step: Step, peers: Graph): (t: State)
    requires |s.current| == |peers|
    ensures |t.current| == |peers|
  {
    if Enabled(s, step) then Apply(s, step, peers) else s
  }

  ghost function Run(peers: Graph, s: State, steps: seq<Step>): (t: State)
    requires |s.current| == |peers|
    ensures |t.current| == |peers|
  {
    if steps == [] then s
    else Next(Run(peers, s, steps[..|steps| - 1]), steps[|steps| - 1], peers)
  }

  /** The nodes that remember the one referer block. */
  function Remembering(current: seq<Option<Referer>>): (known: seq<set<Id>>)
    ensures |known| == |current|
    ensures forall i :: 0 <= i < |current| ==> known[i] == if current[i].Some? then {current[i].value.hash} else {}
  {
    seq(|current|, i requires 0 <= i < |current| => if current[i].Some? then {current[i].value.hash} else {})
  }

  ghost predicate OnlyHash(s: State, peers: Graph, h: Id) {
    && |s.current| == |peers| && ValidGraph(peers)
    && (forall v :: 0 <= v < |s.current| && s.current[v].Some? ==> s.current[v].value.hash == h)
    && (forall m :: m in s.inflight ==> m.0 < |peers| && m.1.hash == h)
  }

  ghost predicate Inv(s: State, peers: Graph, h: Id) {
    OnlyHash(s, peers, h) && Balanced<Id>(peers, Remembering(s.current), {h}, |s.inflight|, s.delivered, s.sent)
  }

  lemma {:induction false} AllOwed(peers: Graph, current: seq<Option<Referer>>, h: Id, n: nat)
    requires n <= |peers| == |current| && (forall v :: 0 <= v < |current| ==> current[v].None?)
    ensures DebtUpTo<Id>(peers, Remembering(current), {h}, n) == EdgesUpTo(peers, n)
  {
    if n > 0 {
      AllOwed(peers, current, h, n - 1);
      assert {h} - Remembering(current)[n - 1] == {h};
      assert Times(|{h}|, |peers[n - 1]|) == |peers[n - 1]|;
    }
  }

  lemma ProposeKeepsInv(s: State, peers: Graph, u: nat, r: Referer)
    requires Inv(s, peers, r.hash) && u < |peers|
    ensures Inv(Apply(s, Propose(u, r), peers), peers, r.hash)
  {
    BroadcastContents(peers[u], r);
  }

  lemma DeliverKeepsHash(s: State, peers: Graph, v: nat, r: Referer)
    requires OnlyHash(s, peers, r.hash) && v < |peers| && (v, r) in s.inflight
    ensures OnlyHash(Apply(s, Deliver(v, r), peers), peers, r.hash)
  {
    BroadcastContents(peers[v], r);
  }

  lemma DeliverBalances(s: State, peers: Graph, v: nat, r: Referer)
    requires Inv(s, peers, r.hash) && v < |peers| && (v, r) in s.inflight
    ensures var t := Apply(s, Deliver(v, r), peers);
            Balanced<Id>(peers, Remembering(t.current), {r.hash}, |t.inflight|, t.delivered, t.sent)
  {
    BroadcastContents(peers[v], r);
    TakeAndSend(s.inflight, (v, r), Broadcast(peers[v], r));
    BalancedReceive<Id>(peers, Remembering(s.current), {r.hash}, |s.inflight|, s.delivered, s.sent, v, r.hash);
    if PassesOn(s.current[v], r) {
      RememberedNow(s.current, v, r);
    }
  }

  lemma RememberedNow(current: seq<Option<Referer>>, v: nat, r: Referer)
    requires v < |current| && current[v].None?
    ensures Remembering(current[v := Some(r)]) == Remembering(current)[v := Remembering(current)[v] + {r.hash}]
  {
    assert Remembering(current)[v] == {} && {} + {r.hash} == {r.hash};
  }

  lemma ForgetKeepsInv(s: State, peers: Graph, v: nat, h: Id)
    requires Inv(s, peers, h) && v < |peers|
    ensures Inv(Apply(s, Forget(v), peers), peers, h)
  {
    var known := Remembering(s.current);
    if s.current[v].Some? {
      var forgotten := Remembering(s.current[v := None]);
      assert forgotten == known[v := {}];
      assert forgotten[v := forgotten[v] + {h}] == known;
      LearnPays<Id>(peers, forgotten, {h}, v, h);
    } else {
      assert s.current[v := None] == s.current;
    }
  }

  ghost predicate Proposes(steps: seq<Step>, h: Id) {
    forall i :: 0 <= i < |steps| && steps[i].Propose? ==> steps[i].referer.hash == h
  }

  lemma {:induction false} RunKeeps(peers: Graph, steps: seq<Step>, h: Id)
    requires ValidGraph(peers) && Proposes(steps, h)
    ensures Inv(Run(peers, Initial(|peers|), steps), peers, h)
  {
    if steps == [] {
      AllOwed(peers, Initial(|peers|).current, h, |peers|);
      assert Times(|{h}|, Edges(peers)) == Edges(peers);
    } else {
      var front, step := steps[..|steps| - 1], steps[|steps| - 1];
      RunKeeps(peers, front, h);
      var s := Run(peers, Initial(|peers|), front);
      if Enabled(s, step) {
        match step
        case Propose(u, r) => ProposeKeepsInv(s, peers, u, r);
        case Deliver(v, r) =>
          DeliverKeepsHash(s, peers, v, r);
          DeliverBalances(s, peers, v, r);
        case Forget(v) => ForgetKeepsInv(s, peers, v, h);
      }
    }
  }

  /** A block that comes back to the node that remembers it costs one message and goes no
      further; if a head block came first, it is passed on to every peer again. */
  lemma ForgettingRepeats(s: State, peers: Graph, v: nat, r: Referer)
    requires |s.current| == |peers| && v < |peers| && s.current[v] == Some(r) && (v, r) in s.inflight
    ensures var kept := Apply(s, Deliver(v, r), peers); var forgot := Apply(Apply(s, Forget(v), peers), Deliver(v, r), peers);
            && kept.current == s.current && |kept.inflight| == |s.inflight| - 1
            && forgot.current == s.current && |forgot.inflight| == |kept.inflight| + |peers[v]|
            && kept.delivered == forgot.delivered == s.delivered + 1
  {
    BroadcastContents(peers[v], r);
    TakeAndSend(s.inflight, (v, r), Broadcast(peers[v], r));
    assert s.current[v := None][v := Some(r)] == s.current;
  }

  /** One referer block floods with bounded traffic: in every run that proposes a single hash,
      however often, the deliveries made, in flight and still owed are one per edge plus those
      sent by proposers or sent again by nodes that forgot. */
  lemma OneRefererConserved(peers: Graph, steps: seq<Step>, h: Id)
    requires ValidGraph(peers) && Proposes(steps, h)
    ensures var s := Run(peers, Initial(|peers|), steps);
            s.delivered + |s.inflight| + Debt<Id>(peers, Remembering(s.current), {h}) == Edges(peers) + s.sent
  {
    RunKeeps(peers, steps, h);
    assert Times(|{h}|, Edges(peers)) == Edges(peers);
  }

  lemma LastOfBoth<T>(first: seq<T>, second: seq<T>)
    requires second != []
    ensures var all := first + second; all[..|all| - 1] == first + second[..|second| - 1] && all[|all| - 1] == second[|second| - 1]
  {
  }

  lemma {:induction false} RunSplits(peers: Graph, s: State, first: seq<Step>, second: seq<Step>)
    requires |s.current| == |peers|
    ensures Run(peers, s, first + second) == Run(peers, Run(peers, s, first), second)
  {
    if second == [] {
      assert first + second == first;
    } else {
      RunSplits(peers, s, first, second[..|second| - 1]);
      LastOfBoth(first, second);
    }
  }

  lemma RunSnoc(peers: Graph, s: State, steps: seq<Step>, step: Step)
    requires |s.current| == |peers|
    ensures Run(peers, s, steps + [step]) == Next(Run(peers, s, steps), step, peers)
  {
    assert (steps + [step])[..|steps|] == steps;
  }

  lemma RunOne(peers: Graph, s: State, p: Step)
    requires |s.current| == |peers|
    ensures Run(peers, s, [p]) == Next(s, p, peers)
  {
    assert [p][..0] == [];
    assert Run(peers, s, []) == s;
  }

  lemma RunTwo(peers: Graph, s: State, p: Step, q: Step)
    requires |s.current| == |peers|
    ensures Run(peers, s, [p, q]) == Next(Next(s, p, peers), q, peers)
  {
    RunOne(peers, s, p);
    assert [p, q][..1] == [p];
  }

  /** Nothing is remembered or in flight that is not one of these blocks. */
  ghost predicate Only(s: State, rs: set<Referer>) {
    && (forall v :: 0 <= v < |s.current| && s.current[v].Some? ==> s.current[v].value in rs)
    && (forall m :: m in s.inflight ==> m.1 in rs)
  }

  ghost predicate ProposesOnly(steps: seq<Step>, rs: set<Referer>) {
    forall i :: 0 <= i < |steps| && steps[i].Propose? ==> steps[i].referer in rs
  }

  lemma StepKeepsOnly(s: State, step: Step, peers: Graph, rs: set<Referer>)
    requires |s.current| == |peers| && Only(s, rs) && Enabled(s, step) && (step.Propose? ==> step.referer in rs)
    ensures Only(Apply(s, step, peers), rs)
  {
    if !step.Forget? {
      assert step.referer in rs;
      SentOnly(s.inflight, peers[step.node], step.node, step.referer, rs);
    }
  }

  /** What is in flight after a message was taken out, or one was sent, or both. */
  lemma SentOnly(inflight: multiset<(nat, Referer)>, targets: seq<nat>, v: nat, r: Referer, rs: set<Referer>)
    requires (forall m :: m in inflight ==> m.1 in rs) && r in rs
    ensures forall m :: m in inflight + Broadcast(targets, r) ==> m.1 in rs
    ensures forall m :: m in inflight - multiset{(v, r)} ==> m.1 in rs
    ensures forall m :: m in inflight - multiset{(v, r)} + Broadcast(targets, r) ==> m.1 in rs
  {
    BroadcastContents(targets, r);
  }

  /** Only proposed blocks are ever remembered or in flight. */
  lemma {:induction false} NothingInvented(peers: Graph, steps: seq<Step>, rs: set<Referer>)
    requires ProposesOnly(steps, rs)
    ensures Only(Run(peers, Initial(|peers|), steps), rs)
  {
    if steps != [] {
      var front, step := steps[..|steps| - 1], steps[|steps| - 1];
      NothingInvented(peers, front, rs);
      if Enabled(Run(peers, Initial(|peers|), front), step) {
        StepKeepsOnly(Run(peers, Initial(|peers|), front), step, peers, rs);
      }
    }
  }

  ghost predicate Coming(s: State, v: nat) {
    exists r :: (v, r) in s.inflight
  }

  /** Whoever remembers a block, or is one of these proposers, has told each of its peers: the
      peer remembers one too or will be sent one. */
  ghost predicate Told(s: State, peers: Graph, proposers: set<nat>) {
    |s.current| == |peers| &&
    forall u, v :: 0 <= u < |peers| && 0 <= v < |peers| && v in peers[u] && (s.current[u].Some? || u in proposers) ==> s.current[v].Some? || Coming(s, v)
  }

  ghost predicate ForgetsNothing(steps: seq<Step>) {
    forall i :: 0 <= i < |steps| ==> !steps[i].Forget?
  }

  lemma ProposeTells(s: State, peers: Graph, proposers: set<nat>, x: nat, r: Referer)
    requires Told(s, peers, proposers) && x < |peers|
    ensures Told(Apply(s, Propose(x, r), peers), peers, proposers + {x})
  {
    var t := Apply(s, Propose(x, r), peers);
    BroadcastContents(peers[x], r);
    forall u, v | 0 <= u < |peers| && 0 <= v < |peers| && v in peers[u] && (t.current[u].Some? || u in proposers + {x}) ensures t.current[v].Some? || Coming(t, v) {
      if u == x {
        assert (v, r) in t.inflight;
      } else if Coming(s, v) {
        var m :| (v, m) in s.inflight;
        assert (v, m) in t.inflight;
      }
    }
  }

  /** A message to another node stays in flight, and the receiver remembers a block. */
  lemma StillComing(s: State, peers: Graph, x: nat, r: Referer, v: nat)
    requires |s.current| == |peers| && x < |peers| && (x, r) in s.inflight && v < |peers| && (s.current[v].Some? || Coming(s, v))
    ensures var t := Apply(s, Deliver(x, r), peers); t.current[v].Some? || Coming(t, v)
  {
    var t := Apply(s, Deliver(x, r), peers);
    if s.current[v].None? && v != x {
      var m :| (v, m) in s.inflight;
      assert (v, m) in t.inflight;
    }
  }

  lemma DeliverTells(s: State, peers: Graph, proposers: set<nat>, x: nat, r: Referer)
    requires Told(s, peers, proposers) && x < |peers| && (x, r) in s.inflight
    ensures Told(Apply(s, Deliver(x, r), peers), peers, proposers)
  {
    var t := Apply(s, Deliver(x, r), peers);
    forall u, v | 0 <= u < |peers| && 0 <= v < |peers| && v in peers[u] && (t.current[u].Some? || u in proposers) ensures t.current[v].Some? || Coming(t, v) {
      if s.current[u].Some? || u in proposers {
        StillComing(s, peers, x, r, v);
      } else {
        BroadcastContents(peers[x], r);
        assert u == x && (v, r) in t.inflight;
      }
    }
  }

  ghost predicate Proposer(steps: seq<Step>, u: nat) {
    exists i :: 0 <= i < |steps| && steps[i].Propose? && steps[i].node == u
  }

  ghost function Proposers(steps: seq<Step>): set<nat> {
    set i | 0 <= i < |steps| && steps[i].Propose? :: steps[i].node
  }

  lemma StepTells(s: State, step: Step, peers: Graph, proposers: set<nat>)
    requires Told(s, peers, proposers) && Enabled(s, step) && !step.Forget?
    ensures Told(Apply(s, step, peers), peers, proposers + if step.Propose? then {step.node} else {})
  {
    match step
    case Propose(u, r) => ProposeTells(s, peers, proposers, u, r);
    case Deliver(v, r) => DeliverTells(s, peers, proposers, v, r);
  }

  /** A step that is not enabled names no node, or takes a message that is not there. */
  lemma NextTells(s: State, step: Step, peers: Graph, proposers: set<nat>)
    requires Told(s, peers, proposers) && !step.Forget?
    ensures Told(Next(s, step, peers), peers, proposers + if step.Propose? then {step.node} else {})
  {
    if Enabled(s, step) {
      StepTells(s, step, peers, proposers);
    }
  }

  lemma {:induction false} RunTells(peers: Graph, steps: seq<Step>)
    requires ForgetsNothing(steps)
    ensures Told(Run(peers, Initial(|peers|), steps), peers, Proposers(steps))
  {
    if steps != [] {
      var front, step := steps[..|steps| - 1], steps[|steps| - 1];
      RunTells(peers, front);
      assert step == steps[|steps| - 1] && !step.Forget?;
      ProposersOfLast(steps);
      NextTells(Run(peers, Initial(|peers|), front), step, peers, Proposers(front));
    }
  }

  lemma ProposersOfLast(steps: seq<Step>)
    requires steps != []
    ensures var front, step := steps[..|steps| - 1], steps[|steps| - 1];
            Proposers(steps) == Proposers(front) + if step.Propose? then {step.node} else {}
  {
    var front, step := steps[..|steps| - 1], steps[|steps| - 1];
    forall u | u in Proposers(steps) ensures u in Proposers(front) + if step.Propose? then {step.node} else {} {
      var i :| 0 <= i < |steps| && steps[i].Propose? && steps[i].node == u;
      if i < |front| {
        assert front[i].Propose? && front[i].node == u;
      }
    }
    forall u | u in Proposers(front) ensures u in Proposers(steps) {
      var i :| 0 <= i < |front| && front[i].Propose? && front[i].node == u;
      assert steps[i].Propose? && steps[i].node == u;
    }
  }

  lemma {:induction false} ToldAlongPath(s: State, peers: Graph, proposers: set<nat>, p: seq<nat>)
    requires Told(s, peers, proposers) && s.inflight == multiset{} && Path(peers, p) && |p| > 1 && p[0] in proposers
    ensures s.current[p[|p| - 1]].Some?
  {
    var front := p[..|p| - 1];
    assert p[|p| - 2 + 1] in peers[p[|p| - 2]];
    assert !Coming(s, p[|p| - 1]);
    if |front| > 1 {
      assert Path(peers, front);
      ToldAlongPath(s, peers, proposers, front);
    }
  }

  /** Convergence: when nothing has been forgotten and nothing is in flight, every node that a
      path of at least one edge leads to from a proposer remembers some proposed block. */
  lemma ProposalReachesAll(peers: Graph, steps: seq<Step>, p: seq<nat>, rs: set<Referer>)
    requires ForgetsNothing(steps) && ProposesOnly(steps, rs) && Path(peers, p) && |p| > 1 && Proposer(steps, p[0])
    requires Run(peers, Initial(|peers|), steps).inflight == multiset{}
    ensures var c := Run(peers, Initial(|peers|), steps).current[p[|p| - 1]]; c.Some? && c.value in rs
  {
    RunTells(peers, steps);
    assert p[0] in Proposers(steps);
    ToldAlongPath(Run(peers, Initial(|peers|), steps), peers, Proposers(steps), p);
    NothingInvented(peers, steps, rs);
  }

  ghost function Left(s: State, peers: Graph, h: Id): nat
    requires |s.current| == |peers|
  {
    |s.inflight| + Debt<Id>(peers, Remembering(s.current), {h})
  }

  lemma OneDelivered(peers: Graph, s: State, h: Id) returns (first: seq<Step>)
    requires Inv(s, peers, h) && s.inflight != multiset{}
    ensures Delivers(first)
    ensures var t := Run(peers, s, first);
            && Inv(t, peers, h) && Left(t, peers, h) < Left(s, peers, h)
            && forall w :: 0 <= w < |peers| && s.current[w].Some? ==> t.current[w] == s.current[w]
  {
    var m :| m in s.inflight;
    first := [Deliver(m.0, m.1)];
    RunOne(peers, s, Deliver(m.0, m.1));
    DeliverKeepsHash(s, peers, m.0, m.1);
    DeliverBalances(s, peers, m.0, m.1);
  }

  /** The steps leave nothing in flight and no remembered block changed. */
  ghost predicate Settles(peers: Graph, s: State, steps: seq<Step>)
    requires |s.current| == |peers|
  {
    var t := Run(peers, s, steps);
    t.inflight == multiset{} && forall v :: 0 <= v < |peers| && s.current[v].Some? ==> t.current[v] == s.current[v]
  }

  lemma SettlesAfter(peers: Graph, s: State, first: seq<Step>, rest: seq<Step>)
    requires |s.current| == |peers| && Settles(peers, Run(peers, s, first), rest)
    requires forall v :: 0 <= v < |peers| && s.current[v].Some? ==> Run(peers, s, first).current[v] == s.current[v]
    ensures Settles(peers, s, first + rest)
  {
    RunSplits(peers, s, first, rest);
  }

  ghost predicate Delivers(steps: seq<Step>) {
    forall i :: 0 <= i < |steps| ==> steps[i].Deliver?
  }

  /** Delivering what is left of one hash ends, and changes no block that is remembered. */
  lemma {:induction false} Drained(peers: Graph, s: State, h: Id) returns (steps: seq<Step>)
    requires Inv(s, peers, h)
    ensures Delivers(steps) && Settles(peers, s, steps)
    decreases Left(s, peers, h)
  {
    if s.inflight == multiset{} {
      steps := [];
    } else {
      var first := OneDelivered(peers, s, h);
      var t := Run(peers, s, first);
      var rest := Drained(peers, t, h);
      assert Settles(peers, s, first + rest) by { SettlesAfter(peers, s, first, rest); }
      steps := first + rest;
    }
  }

  /** Only u proposes, only these blocks, and nothing is forgotten. */
  ghost predicate OneProposer(steps: seq<Step>, u: nat, rs: set<Referer>) {
    ForgetsNothing(steps) && ProposesOnly(steps, rs) && forall i :: 0 <= i < |steps| && steps[i].Propose? ==> steps[i].node == u
  }

  /** Both blocks are proposed; one peer is sent the first before the second, the other the
      second before the first. */
  ghost function Crossed(u: nat, x: nat, y: nat, r: Referer, q: Referer): seq<Step> {
    [Propose(u, r), Propose(u, q)] + [Deliver(x, r), Deliver(y, q)]
  }

  /** After two proposals both blocks are on their way to all peers. */
  lemma BothProposed(peers: Graph, u: nat, r: Referer, q: Referer)
    requires u < |peers|
    ensures var s := Run(peers, Initial(|peers|), [Propose(u, r), Propose(u, q)]);
            s == State(Initial(|peers|).current, Broadcast(peers[u], r) + Broadcast(peers[u], q), 0, 2 * |peers[u]|)
  {
    RunTwo(peers, Initial(|peers|), Propose(u, r), Propose(u, q));
  }

  lemma CrossedProposals(peers: Graph, u: nat, x: nat, y: nat, r: Referer, q: Referer)
    requires ValidGraph(peers) && u < |peers| && x in peers[u] && y in peers[u]
    ensures var s := Run(peers, Initial(|peers|), [Propose(u, r), Propose(u, q)]);
            (x, r) in s.inflight && (y, q) in s.inflight && forall v :: 0 <= v < |peers| ==> s.current[v].None?
  {
    BothProposed(peers, u, r, q);
    BroadcastContents(peers[u], r);
    BroadcastContents(peers[u], q);
    assert (x, r) in Broadcast(peers[u], r) && (y, q) in Broadcast(peers[u], q);
  }

  lemma CrossedDeliveries(peers: Graph, s: State, x: nat, y: nat, r: Referer, q: Referer)
    requires |s.current| == |peers| && x < |peers| && y < |peers| && x != y
    requires (x, r) in s.inflight && (y, q) in s.inflight && s.current[x].None? && s.current[y].None?
    ensures var t := Run(peers, s, [Deliver(x, r), Deliver(y, q)]); t.current[x] == Some(r) && t.current[y] == Some(q)
  {
    RunTwo(peers, s, Deliver(x, r), Deliver(y, q));
    var t := Next(s, Deliver(x, r), peers);
    assert (y, q) in t.inflight && t.current[y].None?;
  }

  lemma CrossedRun(peers: Graph, u: nat, x: nat, y: nat, r: Referer, q: Referer)
    requires ValidGraph(peers) && u < |peers| && x in peers[u] && y in peers[u] && x != y
    ensures var s := Run(peers, Initial(|peers|), Crossed(u, x, y, r, q)); s.current[x] == Some(r) && s.current[y] == Some(q)
  {
    var proposals := [Propose(u, r), Propose(u, q)];
    CrossedProposals(peers, u, x, y, r, q);
    CrossedDeliveries(peers, Run(peers, Initial(|peers|), proposals), x, y, r, q);
    RunSplits(peers, Initial(|peers|), proposals, [Deliver(x, r), Deliver(y, q)]);
  }

  lemma StillOneProposer(u: nat, x: nat, y: nat, r: Referer, q: Referer, rest: seq<Step>)
    requires Delivers(rest)
    ensures OneProposer(Crossed(u, x, y, r, q) + rest, u, {r, q})
  {
  }

  /** Two blocks of one proposer with one hash, as all that leaders make: on every graph, two of
      its peers that are sent them in different orders each keep the first, and still have
      different ones when nothing is in flight. */
  lemma SameHashDiverges(peers: Graph, u: nat, x: nat, y: nat, r: Referer, q: Referer) returns (steps: seq<Step>)
    requires ValidGraph(peers) && u < |peers| && x in peers[u] && y in peers[u] && x != y && r.hash == q.hash
    ensures OneProposer(steps, u, {r, q})
    ensures var s := Run(peers, Initial(|peers|), steps);
            s.inflight == multiset{} && s.current[x] == Some(r) && s.current[y] == Some(q)
  {
    CrossedRun(peers, u, x, y, r, q);
    RunKeeps(peers, Crossed(u, x, y, r, q), r.hash);
    var rest := Drained(peers, Run(peers, Initial(|peers|), Crossed(u, x, y, r, q)), r.hash);
    RunSplits(peers, Initial(|peers|), Crossed(u, x, y, r, q), rest);
    StillOneProposer(u, x, y, r, q, rest);
    steps := Crossed(u, x, y, r, q) + rest;
  }

  /** Two peers of the one proposer of two blocks with one hash end up with the same block in
      every run, whatever the order of deliveries, exactly when the two blocks are one. */
  lemma PeersAgreeIff(peers: Graph, u: nat, x: nat, y: nat, r: Referer, q: Referer)
    requires ValidGraph(peers) && u < |peers| && x in peers[u] && y in peers[u] && x != y && r.hash == q.hash
    ensures r == q <==>
            forall steps :: OneProposer(steps, u, {r, q}) && Run(peers, Initial(|peers|), steps).inflight == multiset{} ==>
              Run(peers, Initial(|peers|), steps).current[x] == Run(peers, Initial(|peers|), steps).current[y]
  {
    if r == q {
      forall steps | OneProposer(steps, u, {r, q}) && Run(peers, Initial(|peers|), steps).inflight == multiset{}
        ensures Run(peers, Initial(|peers|), steps).current[x] == Run(peers, Initial(|peers|), steps).current[y] {
        SoleRefererAgrees(peers, u, x, y, r, steps);
      }
    } else {
      var steps := SameHashDiverges(peers, u, x, y, r, q);
    }
  }

  lemma SoleRefererAgrees(peers: Graph, u: nat, x: nat, y: nat, r: Referer, steps: seq<Step>)
    requires ValidGraph(peers) && u < |peers| && x in peers[u] && y in peers[u]
    requires OneProposer(steps, u, {r}) && Run(peers, Initial(|peers|), steps).inflight == multiset{}
    ensures var s := Run(peers, Initial(|peers|), steps);
            s.current[x] == s.current[y] == if Proposer(steps, u) then Some(r) else None
  {
    if Proposer(steps, u) {
      ProposalReachesAll(peers, steps, [u, x], {r});
      ProposalReachesAll(peers, steps, [u, y], {r});
    } else {
      NothingInvented(peers, steps, {});
    }
  }
}
