/** One node's message handlers over its store, its peers and the network, proved against the
    functions of the flooding models; and the network-wide steps, proved to refine the runs of
    head-block flooding and of proposing. */
module Node {
  import opened Bytes
  import opened BlockDb
  import opened Flood
  import opened RefererFlood
  import AddressFlood
  import BlockFlood
  import Chain
  import Leadership
  import Membership
  import Mining
  import Signing
  import SigningRuns

  datatype Candidate = Candidate(hash: Id, collections: seq<Signing.Collection>)

  /** Messages sent and not yet delivered, by kind. */
  class Network {
    var heads: multiset<(nat, Block)>
    var referers: multiset<(nat, Referer)>
    var candidates: multiset<(nat, Candidate)>
    var addresses: AddressFlood.Messages

    constructor ()
      ensures heads == multiset{} && referers == multiset{} && candidates == multiset{} && addresses == multiset{}
    {
      heads, referers, candidates, addresses := multiset{}, multiset{}, multiset{}, multiset{};
    }
  }

  /** What a block message carries, and how its handling ends. */
  datatype BlockMessage =
    | NoBlock
    | CandidateBlock(candidate: Candidate)
    | HeadBlock(block: Block)
    | RefererBlock(referer: Referer)
    | TxBlock
    | Unknown
    | Mismatched(asHead: bool)  // the payload is not what its message type says

  datatype Outcome = Done | Failed | Crashed

  /** The height calcDelta looks up: the private clock's size, the member count, below the
      latest one, modulo 2^64. */
  function DeltaHeight(latest: Block): (height: nat)
    ensures height == if latest.index >= 11 then latest.index - 11 else latest.index + 0xffff_ffff_ffff_fff5
  {
    (latest.index + 0x1_0000_0000_0000_0000 - SigningRuns.COSI_MEMBERS) % 0x1_0000_0000_0000_0000
  }

  /** calcDelta reads the latest block, and the one at that height if it is indexed, without
      looking whether they are there. */
  predicate DeltaCrashes(db: Db) {
    GetLatest(db).None? || LookupIndex(db, DeltaHeight(GetLatest(db).value)) == Indexed(None)
  }

  /** In any store: without a latest block, or with an entry that names no stored block 11
      heights below it, where heights below 0 wrap to the top. */
  lemma DeltaCrashesInAnyStore(db: Db)
    ensures DeltaCrashes(db) <==>
            || db.latest == [] || db.latest !in db.blocks
            || (var i := db.blocks[db.latest].index; var h := if i >= 11 then i - 11 else i + 0xffff_ffff_ffff_fff5;
                h in db.index && (db.index[h] == [] || db.index[h] !in db.blocks))
  {
  }

  /** In a coherent store it crashes exactly before the node has any block. */
  lemma DeltaCrashesIff(db: Db)
    requires Coherent(db)
    ensures DeltaCrashes(db) <==> db.blocks == map[]
  {
    if id :| id in db.blocks {
      assert db.blocks[id].index in db.index;
    }
  }

  class Service {
    const self: Key
    const peers: seq<nat>
    const db: BlockDB
    const net: Network
    const buffer: Signing.BlockBuffer
    var timerRunning: bool
    var deForkBlock: Option<Referer>
    var addressMap: set<AddressFlood.Address>
    var starting: seq<Referer>  // proposal goroutines started, oldest first

    constructor (self: Key, peers: seq<nat>, db: BlockDB, net: Network, buffer: Signing.BlockBuffer)
      ensures this.self == self && this.peers == peers && this.db == db && this.net == net && this.buffer == buffer
      ensures !timerRunning && deForkBlock == None && addressMap == {} && starting == []
    {
      this.self, this.peers, this.db, this.net, this.buffer := self, peers, db, net, buffer;
      timerRunning, deForkBlock, addressMap, starting := false, None, {}, [];
    }

    method IsLeader() returns (leader: bool)
      ensures leader <==> Leadership.Leads(db.Get(), self)
    {
      var latest := db.Latest();
      if latest.Some? {
        var blocks := latest.value.ordered;
        if |blocks| == 0 {
          return false;
        }
        return blocks[0].key == self;
      }
      leader := false;
    }

    /** startTimer: only a committee member's timer starts, and only one at a time. */
    method StartTimer() returns (starts: bool)
      modifies this`timerRunning
      ensures starts <==> Leadership.IsMember(db.Get(), self) && !old(timerRunning)
      ensures timerRunning == (old(timerRunning) || starts)
    {
      var member := Membership.IsBFTMember(db, self);
      if !member || timerRunning {
        return false;
      }
      timerRunning := true;
      starts := true;
    }

    /** What follows its wait: whether the node is still a member, and if so whether it leads. */
    method EndTimer() returns (member: bool, leader: bool)
      modifies this`timerRunning
      ensures !timerRunning
      ensures member <==> Leadership.IsMember(db.Get(), self)
      ensures leader <==> member && Leadership.Leads(db.Get(), self)
    {
      timerRunning := false;
      member := Membership.IsBFTMember(db, self);
      leader := false;
      if member {
        leader := IsLeader();
      }
    }

    method BroadcastHead(block: Block)
      modifies net`heads
      ensures net.heads == old(net.heads) + Broadcast(peers, block)
    {
      var i := 0;
      while i < |peers|
        invariant 0 <= i <= |peers|
        invariant net.heads == old(net.heads) + Broadcast(peers[..i], block)
        modifies net`heads
      {
        BroadcastNext(peers, block, i);
        net.heads := net.heads + multiset{(peers[i], block)};
        i := i + 1;
      }
      assert peers[..i] == peers;
    }

    method BroadcastReferer(referer: Referer)
      modifies net`referers
      ensures net.referers == old(net.referers) + Broadcast(peers, referer)
    {
      var i := 0;
      while i < |peers|
        invariant 0 <= i <= |peers|
        invariant net.referers == old(net.referers) + Broadcast(peers[..i], referer)
        modifies net`referers
      {
        BroadcastNext(peers, referer, i);
        net.referers := net.referers + multiset{(peers[i], referer)};
        i := i + 1;
      }
      assert peers[..i] == peers;
    }

    method BroadcastCandidate(candidate: Candidate)
      modifies net`candidates
      ensures net.candidates == old(net.candidates) + Broadcast(peers, candidate)
    {
      var i := 0;
      while i < |peers|
        invariant 0 <= i <= |peers|
        invariant net.candidates == old(net.candidates) + Broadcast(peers[..i], candidate)
        modifies net`candidates
      {
        BroadcastNext(peers, candidate, i);
        net.candidates := net.candidates + multiset{(peers[i], candidate)};
        i := i + 1;
      }
      assert peers[..i] == peers;
    }

    method BroadcastAddressTx(addresses: seq<AddressFlood.Address>)
      modifies net`addresses
      ensures net.addresses == old(net.addresses) + Broadcast(peers, addresses)
    {
      var i := 0;
      while i < |peers|
        invariant 0 <= i <= |peers|
        invariant net.addresses == old(net.addresses) + Broadcast(peers[..i], addresses)
        modifies net`addresses
      {
        BroadcastNext(peers, addresses, i);
        net.addresses := net.addresses + multiset{(peers[i], addresses)};
        i := i + 1;
      }
      assert peers[..i] == peers;
    }

    /** A head block makes the node forget its referer block, accepted or not. */
    method HandleHeadBlock(block: Block)
      modifies this`deForkBlock, db, net`heads
      ensures deForkBlock == None
      ensures db.Get() == Gossip(old(db.Get()), block)
      ensures net.heads == old(net.heads) + if Accepts(old(db.Get()), block) then Broadcast(peers, block) else multiset{}
    {
      deForkBlock := None;
      var known := db.ByID(block.hash);
      if known.Some? {
        return;
      }
      var found, other := db.ByIndex(block.index);
      if other.Some? && found {
        return;
      }
      db.StoreBlock(block);
      db.SetLatest(block);
      BroadcastHead(block);
    }

    method CalcDelta() returns (ok: bool)
      ensures ok <==> !DeltaCrashes(db.Get())
    {
      var latest := db.Latest();
      if latest.None? {
        return false;
      }
      var found, block := db.ByIndex(DeltaHeight(latest.value));
      ok := !found || block.Some?;
    }

    /** A candidate goes into the buffer with the node's signature, and on to its peers. */
    method HandleCandidate(candidate: Candidate) returns (ok: bool)
      requires buffer.Valid()
      modifies buffer, net`candidates
      ensures buffer.Valid()
      ensures var handled := timerRunning && candidate.hash !in old(buffer.Contents());
              && (ok <==> !handled || candidate.collections == [])
              && buffer.Contents() == (if handled && ok then old(buffer.Contents())[candidate.hash := [Signing.Signer(self)]] else old(buffer.Contents()))
              && net.candidates == old(net.candidates) + if handled && ok then Broadcast(peers, candidate) else multiset{}
    {
      var block := new Signing.Block(candidate.hash, candidate.collections);
      var forward;
      ok, forward := SigningRuns.ReceiveCandidate(buffer, block, self, timerRunning);
      if forward {
        BroadcastCandidate(candidate);
      }
    }

    /** A referer block that the node does not remember is remembered, passed on, and, if the
        node leads its latest block, starts a proposal; before all that the delay estimate is
        refreshed, which can crash the node. */
    method HandleReferer(referer: Referer) returns (ok: bool)
      modifies this`deForkBlock, this`starting, net`referers
      ensures ok <==> !PassesOn(old(deForkBlock), referer) || !DeltaCrashes(db.Get())
      ensures var forwards := ok && PassesOn(old(deForkBlock), referer);
              && deForkBlock == (if forwards then Some(referer) else old(deForkBlock))
              && net.referers == old(net.referers) + (if forwards then Broadcast(peers, referer) else multiset{})
              && starting == old(starting) + if forwards && Leadership.Leads(db.Get(), self) then [referer] else []
    {
      ok := true;
      if deForkBlock.None? || deForkBlock.value.hash != referer.hash {
        ok := CalcDelta();
        if !ok {
          return;
        }
        deForkBlock := Some(referer);
        BroadcastReferer(referer);
        var leader := IsLeader();
        if leader {
          starting := starting + [referer];
        }
      }
    }

    method HandleBlockMessage(m: BlockMessage) returns (outcome: Outcome)
      requires buffer.Valid()
      modifies this`deForkBlock, this`starting, db, net`heads, net`referers, net`candidates, buffer
      ensures buffer.Valid()
      ensures outcome.Failed? <==> m.NoBlock? || m.Unknown?
      ensures outcome.Crashed? ==> m.CandidateBlock? || m.RefererBlock? || m.Mismatched?
      ensures m.Mismatched? ==> outcome.Crashed?
      ensures db.Get() == if m.HeadBlock? then Gossip(old(db.Get()), m.block) else old(db.Get())
      ensures net.heads == old(net.heads) + if m.HeadBlock? && Accepts(old(db.Get()), m.block) then Broadcast(peers, m.block) else multiset{}
      ensures m.HeadBlock? || (m.Mismatched? && m.asHead) ==> deForkBlock == None
      ensures m.RefererBlock? ==> var passes := PassesOn(old(deForkBlock), m.referer); var forwards := outcome.Done? && passes;
              && (outcome.Crashed? <==> passes && DeltaCrashes(db.Get()))
              && deForkBlock == (if forwards then Some(m.referer) else old(deForkBlock))
              && net.referers == old(net.referers) + (if forwards then Broadcast(peers, m.referer) else multiset{})
              && starting == old(starting) + if forwards && Leadership.Leads(db.Get(), self) then [m.referer] else []
      ensures m.CandidateBlock? ==> var handled := timerRunning && m.candidate.hash !in old(buffer.Contents()); var buffers := outcome.Done? && handled;
              && (outcome.Crashed? <==> handled && m.candidate.collections != [])
              && buffer.Contents() == (if buffers then old(buffer.Contents())[m.candidate.hash := [Signing.Signer(self)]] else old(buffer.Contents()))
              && net.candidates == old(net.candidates) + if buffers then Broadcast(peers, m.candidate) else multiset{}
      ensures !m.CandidateBlock? ==> buffer.Contents() == old(buffer.Contents()) && net.candidates == old(net.candidates)
      ensures !m.RefererBlock? ==> net.referers == old(net.referers) && starting == old(starting)
      ensures !m.RefererBlock? && !m.HeadBlock? && !(m.Mismatched? && m.asHead) ==> deForkBlock == old(deForkBlock)
    {
      outcome := Done;
      match m
      case NoBlock => outcome := Failed;
      case CandidateBlock(c) =>
        var ok := HandleCandidate(c);
        outcome := if ok then Done else Crashed;
      case HeadBlock(b) =>
        HandleHeadBlock(b);
        assert buffer.Contents() == old(buffer.Contents());
      case RefererBlock(r) =>
        var ok := HandleReferer(r);
        outcome := if ok then Done else Crashed;
        assert buffer.Contents() == old(buffer.Contents());
      case TxBlock =>
      case Unknown => outcome := Failed;
      case Mismatched(asHead) =>
        if asHead {
          deForkBlock := None;
        }
        outcome := Crashed;
    }

    /** The genesis block, unless the node has joined a chain already. */
    method CreateGenesisBlock(genesis: Block) returns (ok: bool)
      modifies db, net`heads
      ensures ok <==> GetLatest(old(db.Get())).None?
      ensures db.Get() == if ok then Adopt(old(db.Get()), genesis) else old(db.Get())
      ensures net.heads == old(net.heads) + if ok then Broadcast(peers, genesis) else multiset{}
    {
      var latest := db.Latest();
      if latest.Some? {
        return false;
      }
      db.StoreBlock(genesis);
      db.SetLatest(genesis);
      BroadcastHead(genesis);
      ok := true;
    }

    /** What a proposal goroutine does before it waits: it crashes without ordered blocks, and
        goes on only for the node that leads the referer block, on its latest block. */
    method PrepareProposal(referer: Referer) returns (ok: bool, latest: Option<Block>)
      ensures ok <==> referer.ordered != []
      ensures latest == if ok && referer.ordered[0].key == self then GetLatest(db.Get()) else None
    {
      if |referer.ordered| == 0 {
        return false, None;
      }
      ok, latest := true, None;
      if referer.ordered[0].key != self {
        return;
      }
      latest := db.Latest();
    }

    /** What it does when the wait is over, on the block it read before: copying it crashes when
        its ordered blocks are signed, and then nothing has been stored or sent. */
    method FinishProposal(latest: Block, referer: Referer, now: Uint64, sha: Mining.Sha256) returns (ok: bool)
      requires referer.ordered != []
      modifies db, net`heads
      ensures ok <==> Unsigned(latest)
      ensures ok ==> var b := Chain.Proposal(latest, now, referer.ordered[0].key, referer.ordered, sha);
              db.Get() == Adopt(old(db.Get()), b) && net.heads == old(net.heads) + Broadcast(peers, b)
      ensures !ok ==> db.Get() == old(db.Get()) && net.heads == old(net.heads)
    {
      var source := Chain.Read(latest);
      Chain.ReadCopyableIff(latest);
      var built := Chain.BuildProposal(source, now, referer.ordered[0].key, referer.ordered, sha);
      if built == null {
        return false;
      }
      var b := built.Get();
      db.StoreBlock(b);
      db.SetLatest(b);
      BroadcastHead(b);
      ok := true;
    }

    /** The addresses that are new are kept and passed on, in one message. */
    method HandleAddresses(addresses: seq<AddressFlood.Address>)
      modifies this`addressMap, net`addresses
      ensures addressMap == old(addressMap) + AddressFlood.Members(addresses)
      ensures net.addresses == old(net.addresses) + AddressFlood.Send(peers, AddressFlood.NewOnes(old(addressMap), addresses))
    {
      var peerNodes: seq<AddressFlood.Address> := [];
      if |addresses| > 0 {
        var i := 0;
        while i < |addresses|
          invariant 0 <= i <= |addresses| && net.addresses == old(net.addresses)
          invariant addressMap == old(addressMap) + AddressFlood.Members(addresses[..i])
          invariant peerNodes == AddressFlood.NewOnes(old(addressMap), addresses[..i])
        {
          assert addresses[..i + 1][..i] == addresses[..i];
          AddressFlood.MembersOfLast(addresses[..i + 1]);
          if addresses[i] !in addressMap {
            addressMap := addressMap + {addresses[i]};
            peerNodes := peerNodes + [addresses[i]];
          }
          i := i + 1;
        }
        assert addresses[..i] == addresses;
        if |peerNodes| > 0 {
          BroadcastAddressTx(peerNodes);
        }
      }
    }

    /** An operator's addresses are all kept and all passed on. */
    method AddAddresses(addresses: seq<AddressFlood.Address>)
      modifies this`addressMap, net`addresses
      ensures addressMap == old(addressMap) + AddressFlood.Members(addresses)
      ensures net.addresses == old(net.addresses) + AddressFlood.Send(peers, addresses)
    {
      var i := 0;
      while i < |addresses|
        invariant 0 <= i <= |addresses| && net.addresses == old(net.addresses)
        invariant addressMap == old(addressMap) + AddressFlood.Members(addresses[..i])
      {
        assert addresses[..i + 1][..i] == addresses[..i];
        AddressFlood.MembersOfLast(addresses[..i + 1]);
        addressMap := addressMap + {addresses[i]};
        i := i + 1;
      }
      assert addresses[..i] == addresses;
      if |addresses| > 0 {
        BroadcastAddressTx(addresses);
      }
    }
  }

  /** One service per node of the graph, each with a store of its own, on one network. */
  ghost predicate Wired(nodes: seq<Service>, net: Network, peers: Graph) {
    && |nodes| == |peers|
    && (forall i, j :: 0 <= i < j < |nodes| ==> nodes[i].db != nodes[j].db)
    && (forall i :: 0 <= i < |nodes| ==> nodes[i].net == net && nodes[i].peers == peers[i])
  }

  ghost predicate Stores(nodes: seq<Service>, dbs: seq<Db>)
    reads set n | n in nodes :: n.db
  {
    |nodes| == |dbs| && forall i :: 0 <= i < |nodes| ==> nodes[i].db.Get() == dbs[i]
  }

  /** The services' stores and the network are in the state of the flooding model. */
  ghost predicate Represents(nodes: seq<Service>, net: Network, s: BlockFlood.State, peers: Graph)
    reads net, set n | n in nodes :: n.db
  {
    Wired(nodes, net, peers) && Stores(nodes, s.dbs) && net.heads == s.inflight
  }

  /** One node's handler, as seen by the network: only its own store changes. */
  method HeadHandled(nodes: seq<Service>, net: Network, v: nat, b: Block, ghost dbs: seq<Db>, ghost peers: Graph)
    requires Wired(nodes, net, peers) && Stores(nodes, dbs) && v < |nodes|
    modifies nodes[v], nodes[v].db, net`heads
    ensures Stores(nodes, dbs[v := Gossip(dbs[v], b)])
    ensures net.heads == old(net.heads) + if Accepts(dbs[v], b) then Broadcast(peers[v], b) else multiset{}
    ensures nodes[v].starting == old(nodes[v].starting) && nodes[v].timerRunning == old(nodes[v].timerRunning)
  {
    nodes[v].HandleHeadBlock(b);
  }

  /** Handling any message in flight is the model's delivery step. */
  method Deliver(nodes: seq<Service>, net: Network, v: nat, b: Block, ghost s: BlockFlood.State, ghost peers: Graph, ghost genesis: Block)
    requires Represents(nodes, net, s, peers) && v < |nodes| && (v, b) in net.heads
    modifies nodes[v], nodes[v].db, net
    ensures Represents(nodes, net, BlockFlood.Apply(s, BlockFlood.Deliver(v, b), peers, genesis), peers)
  {
    net.heads := net.heads - multiset{(v, b)};
    HeadHandled(nodes, net, v, b, s.dbs, peers);
  }

  method CreateGenesis(nodes: seq<Service>, net: Network, u: nat, genesis: Block, ghost s: BlockFlood.State, ghost peers: Graph) returns (ok: bool)
    requires Represents(nodes, net, s, peers) && u < |nodes|
    modifies nodes[u].db, net
    ensures ok <==> GetLatest(s.dbs[u]).None?
    ensures Represents(nodes, net, if ok then BlockFlood.Apply(s, BlockFlood.Genesis(u), peers, genesis) else s, peers)
  {
    ok := nodes[u].CreateGenesisBlock(genesis);
  }

  /** Finishing a proposal on a block the node still has, with a digest no block has had, is an
      enabled proposal step of the model, or a crash that changes nothing. */
  method Propose(nodes: seq<Service>, net: Network, u: nat, latest: Block, referer: Referer, now: Uint64, sha: Mining.Sha256,
                 ghost s: BlockFlood.State, ghost peers: Graph, ghost genesis: Block) returns (ok: bool)
    requires Represents(nodes, net, s, peers) && u < |nodes| && referer.ordered != []
    requires latest.hash != [] && GetByID(s.dbs[u], latest.hash) == Some(latest)
    requires var b := Chain.Proposal(latest, now, referer.ordered[0].key, referer.ordered, sha);
             forall c :: c in s.produced ==> c.hash != b.hash
    modifies nodes[u].db, net
    ensures ok <==> Unsigned(latest)
    ensures var b := Chain.Proposal(latest, now, referer.ordered[0].key, referer.ordered, sha);
            && BlockFlood.Enabled(s, BlockFlood.Propose(u, b), genesis)
            && Represents(nodes, net, if ok then BlockFlood.Apply(s, BlockFlood.Propose(u, b), peers, genesis) else s, peers)
  {
    ghost var b := Chain.Proposal(latest, now, referer.ordered[0].key, referer.ordered, sha);
    assert |b.hash| == |latest.hash|;
    assert latest.hash in s.dbs[u].blocks && b.index == (s.dbs[u].blocks[latest.hash].index + 1) % 0x1_0000_0000_0000_0000;
    ok := nodes[u].FinishProposal(latest, referer, now, sha);
  }

  method DeliverNext(nodes: seq<Service>, net: Network, ghost s: BlockFlood.State, ghost peers: Graph, ghost genesis: Block)
    returns (ghost t: BlockFlood.State)
    requires Represents(nodes, net, s, peers) && BlockFlood.Inv(s, peers) && net.heads != multiset{}
    modifies nodes, set n | n in nodes :: n.db, net
    ensures Represents(nodes, net, t, peers) && BlockFlood.Inv(t, peers)
    ensures t.delivered == s.delivered + 1 && BlockFlood.Pending(t, peers) == BlockFlood.Pending(s, peers) - 1
  {
    var m :| m in net.heads;
    t := BlockFlood.Apply(s, BlockFlood.Deliver(m.0, m.1), peers, genesis);
    BlockFlood.DeliveryPays(s, peers, genesis, m.0, m.1);
    Deliver(nodes, net, m.0, m.1, s, peers, genesis);
  }

  lemma Settled(nodes: seq<Service>, net: Network, s: BlockFlood.State, peers: Graph)
    requires Represents(nodes, net, s, peers) && BlockFlood.Inv(s, peers) && net.heads == multiset{}
    ensures forall u, v :: 0 <= u < |nodes| && 0 <= v < |nodes| && v in peers[u] ==> nodes[u].db.Get().index.Keys <= nodes[v].db.Get().index.Keys
  {
    BlockFlood.QuiescentClosed(s, peers);
  }

  /** Delivering whatever is in flight, in any order, comes to an end, after at most as many
      deliveries as were pending; then every node's heights are with all its peers. */
  method Drain(nodes: seq<Service>, net: Network, ghost start: BlockFlood.State, ghost peers: Graph, ghost genesis: Block)
    returns (ghost s: BlockFlood.State)
    requires Represents(nodes, net, start, peers) && BlockFlood.Inv(start, peers)
    modifies nodes, set n | n in nodes :: n.db, net
    ensures Represents(nodes, net, s, peers) && BlockFlood.Inv(s, peers) && net.heads == multiset{}
    ensures s.delivered <= start.delivered + BlockFlood.Pending(start, peers)
    ensures forall u, v :: 0 <= u < |nodes| && 0 <= v < |nodes| && v in peers[u] ==> nodes[u].db.Get().index.Keys <= nodes[v].db.Get().index.Keys
  {
    s := start;
    while net.heads != multiset{}
      invariant Represents(nodes, net, s, peers) && BlockFlood.Inv(s, peers)
      invariant s.delivered + BlockFlood.Pending(s, peers) == start.delivered + BlockFlood.Pending(start, peers)
      decreases BlockFlood.Pending(s, peers)
    {
      s := DeliverNext(nodes, net, s, peers, genesis);
    }
    Settled(nodes, net, s, peers);
  }

  ghost predicate Keyed(nodes: seq<Service>, keys: seq<Key>) {
    |keys| == |nodes| && forall i :: 0 <= i < |nodes| ==> nodes[i].self == keys[i]
  }

  ghost predicate Started(nodes: seq<Service>, started: set<(nat, Referer)>)
    reads nodes`starting
  {
    forall i, r :: 0 <= i < |nodes| && r in nodes[i].starting ==> (i, r) in started
  }

  ghost predicate Timed(nodes: seq<Service>, timers: set<nat>)
    reads nodes`timerRunning
  {
    forall i :: 0 <= i < |nodes| ==> (nodes[i].timerRunning <==> i in timers)
  }

  ghost predicate HeadsSent(net: Network, sent: set<Block>)
    reads net`heads
  {
    forall m :: m in net.heads ==> m.1 in sent
  }

  ghost predicate ReferersSent(net: Network, referers: set<Referer>)
    reads net`referers
  {
    forall m :: m in net.referers ==> m.1 in referers
  }

  /** The services are in the state of the proposing model: the same timers run, every proposal
      goroutine has been started there, and every message was sent there. */
  ghost predicate Proposing(nodes: seq<Service>, net: Network, s: Leadership.State, system: Leadership.Network)
    reads net, nodes, set n | n in nodes :: n.db
  {
    && Wired(nodes, net, system.peers) && Keyed(nodes, system.keys) && Stores(nodes, s.dbs) && |s.signing.buffers| == |nodes| && Started(nodes, s.started) && Timed(nodes, s.timers)
    && HeadsSent(net, s.sent) && ReferersSent(net, s.referers)
  }

  lemma StartIs(s: Leadership.State, v: nat, r: Referer, system: Leadership.Network, genesis: Block, sha: Mining.Sha256)
    requires v < |s.dbs| == |s.signing.buffers| == |system.keys| == |system.peers| && r in s.referers && Leadership.Leads(s.dbs[v], system.keys[v])
    ensures Leadership.Apply(s, Leadership.Start(v, r), system, genesis, sha) == s.(started := s.started + {(v, r)})
  {
  }

  lemma DeliverIs(s: Leadership.State, v: nat, b: Block, system: Leadership.Network, genesis: Block, sha: Mining.Sha256)
    requires v < |s.dbs| == |s.signing.buffers| == |system.keys| == |system.peers| && b in s.sent
    ensures Leadership.Apply(s, Leadership.Deliver(v, b), system, genesis, sha) == s.(dbs := s.dbs[v := Gossip(s.dbs[v], b)])
  {
  }

  lemma ProposeIs(s: Leadership.State, u: nat, r: Referer, latest: Block, now: Uint64, system: Leadership.Network, genesis: Block, sha: Mining.Sha256)
    requires u < |s.dbs| == |s.signing.buffers| == |system.keys| == |system.peers| && (u, r, latest) in s.waiting
    ensures Leadership.Apply(s, Leadership.Propose(u, r, latest, now), system, genesis, sha) ==
            if Unsigned(latest) then Leadership.Produce(s, u, Chain.Proposal(latest, now, system.keys[u], r.ordered, sha)) else s
  {
  }

  /** One node's referer handler, as seen by the network: no store changes. */
  method RefererHandled(nodes: seq<Service>, net: Network, v: nat, r: Referer, ghost dbs: seq<Db>, ghost referers: set<Referer>, ghost peers: Graph)
    returns (ok: bool, starts: bool)
    requires Wired(nodes, net, peers) && Stores(nodes, dbs) && v < |nodes|
    requires ReferersSent(net, referers) && r in referers
    modifies nodes[v], net`referers
    ensures Stores(nodes, dbs) && ReferersSent(net, referers)
    ensures starts ==> Leadership.Leads(dbs[v], nodes[v].self)
    ensures nodes[v].timerRunning == old(nodes[v].timerRunning)
    ensures nodes[v].starting == old(nodes[v].starting) + if starts then [r] else []
  {
    var before := |nodes[v].starting|;
    ok := nodes[v].HandleReferer(r);
    starts := |nodes[v].starting| > before;
    BroadcastContents(nodes[v].peers, r);
  }

  /** Handling a referer block is the model's Start step when it starts a proposal, and no step
      otherwise. */
  method RefererArrives(nodes: seq<Service>, net: Network, v: nat, r: Referer, ghost s: Leadership.State,
                        ghost system: Leadership.Network, ghost genesis: Block, ghost sha: Mining.Sha256) returns (ok: bool, starts: bool)
    requires Proposing(nodes, net, s, system) && v < |nodes| && (v, r) in net.referers
    modifies nodes[v], net`referers
    ensures nodes[v].starting == old(nodes[v].starting) + if starts then [r] else []
    ensures starts ==> (v, r) in Leadership.Apply(s, Leadership.Start(v, r), system, genesis, sha).started
    ensures Proposing(nodes, net, if starts then Leadership.Apply(s, Leadership.Start(v, r), system, genesis, sha) else s, system)
  {
    assert r in s.referers;
    net.referers := net.referers - multiset{(v, r)};
    ok, starts := RefererHandled(nodes, net, v, r, s.dbs, s.referers, system.peers);
    assert Timed(nodes, s.timers) && HeadsSent(net, s.sent);
    assert Started(nodes, if starts then s.started + {(v, r)} else s.started);
    if starts {
      StartIs(s, v, r, system, genesis, sha);
    }
  }

  /** What a started goroutine does before it waits is the model's Wait step, on the block it
      goes on with. */
  method ProposalWaits(nodes: seq<Service>, net: Network, u: nat, r: Referer, ghost s: Leadership.State,
                       ghost system: Leadership.Network, ghost genesis: Block, ghost sha: Mining.Sha256) returns (ok: bool, latest: Option<Block>)
    requires Proposing(nodes, net, s, system) && u < |nodes| && r in nodes[u].starting
    ensures var t := Leadership.Apply(s, Leadership.Wait(u, r), system, genesis, sha);
            && Proposing(nodes, net, t, system)
            && (if latest.Some? then ok && t == s.(waiting := s.waiting + {(u, r, latest.value)}) else t == s)
  {
    ok, latest := nodes[u].PrepareProposal(r);
  }

  /** And what it does after the wait is the model's Propose step, the crash included. */
  method ProposalMade(nodes: seq<Service>, net: Network, u: nat, r: Referer, latest: Block, now: Uint64, sha: Mining.Sha256,
                      ghost s: Leadership.State, ghost system: Leadership.Network, ghost genesis: Block) returns (ok: bool)
    requires Proposing(nodes, net, s, system) && Leadership.Inv(s, system, genesis) && u < |nodes| && (u, r, latest) in s.waiting
    modifies nodes[u].db, net`heads
    ensures Proposing(nodes, net, Leadership.Apply(s, Leadership.Propose(u, r, latest, now), system, genesis, sha), system)
    ensures ok ==> latest == genesis
  {
    assert Leadership.Ready(u, r, latest, system, genesis);
    ProposeIs(s, u, r, latest, now, system, genesis, sha);
    ghost var b := Chain.Proposal(latest, now, system.keys[u], r.ordered, sha);
    ok := nodes[u].FinishProposal(latest, r, now, sha);
    assert HeadsSent(net, if ok then s.sent + {b} else s.sent) by { BroadcastContents(nodes[u].peers, b); }
    assert Stores(nodes, if ok then s.dbs[u := Adopt(s.dbs[u], b)] else s.dbs);
    assert Started(nodes, s.started) && ReferersSent(net, s.referers);
    if ok {
      Leadership.UnsignedIsGenesis(latest, system, genesis);
    }
  }

  /** Handling a head block is the model's Deliver step. */
  method HeadArrives(nodes: seq<Service>, net: Network, v: nat, b: Block, ghost s: Leadership.State,
                     ghost system: Leadership.Network, ghost genesis: Block, ghost sha: Mining.Sha256)
    requires Proposing(nodes, net, s, system) && v < |nodes| && (v, b) in net.heads
    modifies nodes[v], nodes[v].db, net`heads
    ensures Proposing(nodes, net, Leadership.Apply(s, Leadership.Deliver(v, b), system, genesis, sha), system)
  {
    assert b in s.sent;
    net.heads := net.heads - multiset{(v, b)};
    HeadHandled(nodes, net, v, b, s.dbs, system.peers);
    assert HeadsSent(net, s.sent) by { BroadcastContents(system.peers[v], b); }
    assert Started(nodes, s.started) && Timed(nodes, s.timers);
    DeliverIs(s, v, b, system, genesis, sha);
  }

  /** A node's timer starts as in the model. */
  method TimerStarts(nodes: seq<Service>, net: Network, u: nat, ghost s: Leadership.State,
                     ghost system: Leadership.Network, ghost genesis: Block, ghost sha: Mining.Sha256) returns (starts: bool)
    requires Proposing(nodes, net, s, system) && |system.keys| == |system.peers| && u < |nodes|
    modifies nodes[u]
    ensures starts <==> u !in s.timers && u in Leadership.Apply(s, Leadership.StartTimer(u), system, genesis, sha).timers
    ensures Proposing(nodes, net, Leadership.Apply(s, Leadership.StartTimer(u), system, genesis, sha), system)
  {
    starts := nodes[u].StartTimer();
    assert Started(nodes, s.started);
  }

  /** And ends as in the model, which then counts it among the leading nodes when it leads. */
  method TimerEnds(nodes: seq<Service>, net: Network, u: nat, ghost s: Leadership.State,
                   ghost system: Leadership.Network, ghost genesis: Block, ghost sha: Mining.Sha256) returns (member: bool, leader: bool)
    requires Proposing(nodes, net, s, system) && |system.keys| == |system.peers| && u < |nodes| && nodes[u].timerRunning
    modifies nodes[u]
    ensures var t := Leadership.Apply(s, Leadership.EndTimer(u), system, genesis, sha);
            Proposing(nodes, net, t, system) && (member ==> u in t.passed) && (leader ==> u in t.leading)
  {
    member, leader := nodes[u].EndTimer();
    assert Started(nodes, s.started);
  }
}
