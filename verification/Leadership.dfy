/** Who proposes, and on what: all runs of the chain, the timers and the signature exchange
    together. A committee member's timer lets it buffer candidates; when it ends, a member that
    leads its latest block selects signed candidates and broadcasts them as a referer block; a
    node that leads its latest block starts a proposal with it, goes on only if it also leads
    the referer block, and builds on a copy of its latest block. In every run, then, only the
    leader named by the genesis block ever proposes, it is the only author there is, and since
    blocks with signed candidates cannot be copied again it never gets past the first height. */
module Leadership {
  import opened Bytes
  import opened BlockDb
  import opened HashBytes
  import RefererFlood
  import Chain
  import Membership
  import Mining
  import Signing
  import SigningRuns

  type Referer = RefererFlood.Referer
  type Network = SigningRuns.Network

  /** isLeader: the first ordered block of the latest head block has the node's key. */
  predicate Leads(db: Db, self: Key) {
    GetLatest(db).Some? && GetLatest(db).value.ordered != [] && GetLatest(db).value.ordered[0].key == self
  }

  /** isBFTMember. */
  ghost predicate IsMember(db: Db, self: Key) {
    self in Membership.Authors(Membership.Committee(db))
  }

  /** `sent` keeps every head block ever stored by a node and `referers` every referer block a
      leader ever broadcast; `signing` is the signature exchange; `timers` are the nodes whose
      timer runs, `passed` those that were members when it ended, and `leading` those that led
      their latest block too; `started` are the proposal goroutines started and `waiting` those
      that have read their latest block and wait. Messages stay available once sent, so loss,
      repetition and reordering are all covered. */
  datatype State = State(
    dbs: seq<Db>,
    sent: set<Block>,
    signing: SigningRuns.State,
    timers: set<nat>,
    passed: set<nat>,
    leading: set<nat>,
    referers: set<Referer>,
    started: set<(nat, Referer)>,
    waiting: set<(nat, Referer, Block)>)

  datatype Step =
    | Genesis(node: nat)
    | StartTimer(node: nat)
    | EndTimer(node: nat)
    | Sign(step: SigningRuns.Step)
    | Select(node: nat, referer: Referer)
    | Start(node: nat, referer: Referer)
    | Wait(node: nat, referer: Referer)
    | Propose(node: nat, referer: Referer, latest: Block, now: Uint64)
    | Deliver(node: nat, block: Block)
    | Download(node: nat, block: Block, makeLatest: bool)

  function Initial(n: nat): State {
    State(seq(n, _ => EMPTY), {}, SigningRuns.Initial(n), {}, {}, {}, {}, {}, {})
  }

  function Produce(s: State, u: nat, b: Block): State
    requires u < |s.dbs|
  {
    s.(dbs := s.dbs[u := Adopt(s.dbs[u], b)], sent := s.sent + {b})
  }

  /** When the steps of the signature exchange can happen. A node mines for its head blocks, with
      their leader's key in the template; it takes candidates while its timer runs; it sends its
      buffer when it was a member at the end of its timer; a proxy's key map is the one that
      getLatestPublicKeyMap gives it as written; and requests need a latest block. */
  ghost predicate Allowed(s: State, step: SigningRuns.Step, net: Network)
    requires |s.dbs| == |net.keys|
  {
    match step
    case Mine(w, _, author) =>
      w < |s.dbs| && exists id :: id in s.dbs[w].blocks && s.dbs[w].blocks[id].ordered != [] && s.dbs[w].blocks[id].ordered[0].key == author
    case HandleCandidate(m, timerRunning) => !m.ProxyRequest? && timerRunning == (m.to in s.timers)
    case SendBuffer(u) => u in s.passed
    case Forward(_, members) =>
      exists p :: 0 <= p < |s.dbs| && GetLatest(s.dbs[p]).Some? && Unsigned(GetLatest(s.dbs[p]).value) && members == Membership.ShadowedKeys(s.dbs[p])
    case HandleSignatureRequest(m, active) => !m.ProxyRequest? && m.to < |s.dbs| && active == GetLatest(s.dbs[m.to]).Some?
  }

  /** The ordered block is one of the node's buffered blocks with enough signatures. */
  ghost predicate Picked(signing: SigningRuns.State, u: nat, o: Ordered, height: nat) {
    exists h :: SigningRuns.Selectable(signing, u, h, height)
                && o == Ordered(signing.buffers[u][h].author, Signing.Signers(signing.buffers[u][h].collections))
  }

  /** What a leader broadcasts: at least one block, all picked, and no hash. */
  ghost predicate Selected(signing: SigningRuns.State, u: nat, r: Referer, height: nat) {
    r.hash == [] && r.ordered != [] && forall i :: 0 <= i < |r.ordered| ==> Picked(signing, u, r.ordered[i], height)
  }

  /** One step; one that is not enabled changes nothing, and neither does one that crashes its
      node, which goes on from its store. */
  ghost function Apply(s: State, step: Step, net: Network, genesis: Block, sha: Mining.Sha256): (t: State)
    requires |s.dbs| == |s.signing.buffers| == |net.keys| == |net.peers|
    ensures |t.dbs| == |t.signing.buffers| == |net.keys|
  {
    match step
    case Genesis(u) =>
      if u >= |s.dbs| || GetLatest(s.dbs[u]).Some? then s else Produce(s, u, genesis)
    case StartTimer(u) =>
      if u >= |s.dbs| || u in s.timers || !IsMember(s.dbs[u], net.keys[u]) then s else s.(timers := s.timers + {u})
    case EndTimer(u) =>
      if u >= |s.dbs| || u !in s.timers then s
      else if !IsMember(s.dbs[u], net.keys[u]) then s.(timers := s.timers - {u})
      else s.(timers := s.timers - {u}, passed := s.passed + {u}, leading := if Leads(s.dbs[u], net.keys[u]) then s.leading + {u} else s.leading)
    case Sign(q) =>
      if Allowed(s, q, net) then s.(signing := SigningRuns.Apply(s.signing, q, net)) else s
    case Select(u, r) =>
      if u >= |s.dbs| || u !in s.leading || GetLatest(s.dbs[u]).None? || !Selected(s.signing, u, r, GetLatest(s.dbs[u]).value.index) then s
      else s.(referers := s.referers + {r}, started := s.started + {(u, r)})
    case Start(u, r) =>
      if u < |s.dbs| && r in s.referers && Leads(s.dbs[u], net.keys[u]) then s.(started := s.started + {(u, r)}) else s
    case Wait(u, r) =>
      if u >= |s.dbs| || (u, r) !in s.started || r.ordered == [] || r.ordered[0].key != net.keys[u] || GetLatest(s.dbs[u]).None? then s
      else s.(waiting := s.waiting + {(u, r, GetLatest(s.dbs[u]).value)})
    case Propose(u, r, latest, now) =>
      if u >= |s.dbs| || (u, r, latest) !in s.waiting || !Unsigned(latest) then s
      else Produce(s, u, Chain.Proposal(latest, now, net.keys[u], r.ordered, sha))
    case Deliver(u, b) =>
      if u >= |s.dbs| || b !in s.sent then s else s.(dbs := s.dbs[u := Gossip(s.dbs[u], b)])
    case Download(u, b, makeLatest) =>
      if u >= |s.dbs| || b !in s.sent then s
      else s.(dbs := s.dbs[u := if makeLatest then Adopt(s.dbs[u], b) else Store(s.dbs[u], b)])
  }

  ghost function Run(net: Network, genesis: Block, sha: Mining.Sha256, steps: seq<Step>): (s: State)
    requires |net.keys| == |net.peers|
    ensures |s.dbs| == |s.signing.buffers| == |net.keys|
  {
    if steps == [] then Initial(|net.keys|)
    else Apply(Run(net, genesis, sha, steps[..|steps| - 1]), steps[|steps| - 1], net, genesis, sha)
  }

  /** A download can bring a node any block that was ever stored, replace what it has under that
      hash, and make the block its latest or not; no other node changes. */
  lemma DownloadStores(s: State, u: nat, b: Block, makeLatest: bool, net: Network, genesis: Block, sha: Mining.Sha256)
    requires |s.dbs| == |s.signing.buffers| == |net.keys| == |net.peers| && u < |s.dbs| && b in s.sent && b.hash != []
    ensures var t := Apply(s, Download(u, b, makeLatest), net, genesis, sha);
            && GetByID(t.dbs[u], b.hash) == Some(b)
            && (makeLatest ==> GetLatest(t.dbs[u]) == Some(b) && LookupIndex(t.dbs[u], b.index) == Indexed(Some(b)))
            && (!makeLatest ==> t.dbs[u].latest == s.dbs[u].latest && t.dbs[u].index == s.dbs[u].index)
            && (forall id :: id != b.hash ==> GetByID(t.dbs[u], id) == GetByID(s.dbs[u], id))
            && (forall v :: 0 <= v < |s.dbs| && v != u ==> t.dbs[v] == s.dbs[v])
  {
  }

  ghost predicate IsLeader(u: nat, net: Network, genesis: Block) {
    u < |net.keys| && genesis.ordered != [] && net.keys[u] == genesis.ordered[0].key
  }

  /** The node is a committee member as long as the genesis block's author is the only one. */
  ghost predicate IsAuthor(u: nat, net: Network, genesis: Block) {
    u < |net.keys| && net.keys[u] == genesis.publicKey
  }

  /** Miners have something to mine for. */
  ghost predicate Minable(genesis: Block) {
    genesis.hash != [] && genesis.ordered != []
  }

  /** When a selection is possible: the genesis block lies at height 0, its author is the leader
      it names, and that is a node of the network which some node has as a peer. */
  ghost predicate CanSelect(net: Network, genesis: Block) {
    && Minable(genesis) && genesis.index == 0 && genesis.publicKey == genesis.ordered[0].key
    && exists u :: IsLeader(u, net, genesis) && SigningRuns.HasSource(net, u)
  }

  /** When a chain can grow beyond its genesis block: that block can also be copied. */
  ghost predicate CanGrow(net: Network, genesis: Block) {
    CanSelect(net, genesis) && Unsigned(genesis)
  }

  /** A block built on the genesis block by its author and leader, that names that leader again
      and carries signed candidates. */
  ghost predicate FirstBlock(b: Block, net: Network, genesis: Block) {
    && CanGrow(net, genesis)
    && b.publicKey == genesis.publicKey
    && b.ordered != [] && b.ordered[0].key == genesis.publicKey && b.ordered[0].signers != []
    && b.index == genesis.index + 1
  }

  ghost predicate Known(b: Block, net: Network, genesis: Block) {
    b == genesis || FirstBlock(b, net, genesis)
  }

  ghost predicate KnownStore(db: Db, net: Network, genesis: Block) {
    forall id :: id in db.blocks ==> Known(db.blocks[id], net, genesis) && db.blocks[id].hash == id != []
  }

  ghost predicate Signed(r: Referer, net: Network, genesis: Block) {
    r.ordered != [] && r.ordered[0].signers != [] && CanSelect(net, genesis)
  }

  ghost predicate Ready(u: nat, r: Referer, latest: Block, net: Network, genesis: Block) {
    && IsLeader(u, net, genesis) && r.ordered != [] && r.ordered[0].key == net.keys[u]
    && Known(latest, net, genesis) && latest.hash != []
  }

  /** Only the author buffers, only what some node can send it, and only with its own signature. */
  ghost predicate OwnBuffer(b: SigningRuns.Buffer, v: nat, net: Network, genesis: Block) {
    b != map[] ==>
      && IsAuthor(v, net, genesis) && SigningRuns.HasSource(net, v) && Minable(genesis)
      && forall h :: h in b ==> b[h].collections == [Signing.Signer(net.keys[v])]
  }

  /** Candidates are unsigned, only the author sends buffers, and no request is ever sent on. */
  ghost predicate OwnMessage(m: SigningRuns.Message, net: Network, genesis: Block) {
    match m
    case Candidate(to, _, e) => to < |net.keys| && SigningRuns.HasSource(net, to) && Minable(genesis) && e.collections == []
    case ProxyRequest(sender, _, _) => sender == genesis.publicKey
    case SignatureRequest(_, _, _) => false
  }

  ghost predicate SigningInv(s: SigningRuns.State, net: Network, genesis: Block) {
    && |s.buffers| == |net.keys|
    && (forall v :: 0 <= v < |s.buffers| ==> OwnBuffer(s.buffers[v], v, net, genesis))
    && (forall m :: m in s.sent ==> OwnMessage(m, net, genesis))
  }

  ghost predicate StoresInv(s: State, net: Network, genesis: Block) {
    && |s.dbs| == |net.keys|
    && (forall u :: 0 <= u < |s.dbs| ==> KnownStore(s.dbs[u], net, genesis))
    && (forall b :: b in s.sent ==> Known(b, net, genesis))
  }

  ghost predicate TimersInv(s: State, net: Network, genesis: Block) {
    && (forall u :: u in s.timers ==> IsAuthor(u, net, genesis))
    && (forall u :: u in s.passed ==> IsAuthor(u, net, genesis))
    && (forall u :: u in s.leading ==> IsAuthor(u, net, genesis) && IsLeader(u, net, genesis))
  }

  ghost predicate ProposalsInv(s: State, net: Network, genesis: Block) {
    && (forall r :: r in s.referers ==> Signed(r, net, genesis))
    && (forall p :: p in s.started ==> IsLeader(p.0, net, genesis) && p.1 in s.referers)
    && (forall p :: p in s.waiting ==> p.1 in s.referers && Ready(p.0, p.1, p.2, net, genesis))
  }

  ghost predicate Inv(s: State, net: Network, genesis: Block) {
    && net.Valid()
    && StoresInv(s, net, genesis) && SigningInv(s.signing, net, genesis)
    && TimersInv(s, net, genesis) && ProposalsInv(s, net, genesis)
  }

  lemma LatestKnown(db: Db, net: Network, genesis: Block)
    requires KnownStore(db, net, genesis) && GetLatest(db).Some?
    ensures Known(GetLatest(db).value, net, genesis) && GetLatest(db).value.hash != []
  {
    assert db.latest in db.blocks;
  }

  /** Whoever leads its latest block is the leader the genesis block names. */
  lemma LeadsIsLeader(db: Db, u: nat, net: Network, genesis: Block)
    requires KnownStore(db, net, genesis) && u < |net.keys| && Leads(db, net.keys[u])
    ensures IsLeader(u, net, genesis)
  {
    LatestKnown(db, net, genesis);
  }

  lemma {:induction false} WindowStored(db: Db, b: Option<Block>, n: nat)
    requires b.Some? ==> b.value in db.blocks.Values
    ensures forall x :: x in Membership.Window(db, b, n) ==> x in db.blocks.Values
    decreases n
  {
    if n > 0 && b.Some? {
      var previous := GetByID(db, b.value.prevBlock);
      WindowStored(db, previous, n - 1);
      var rest := Membership.Window(db, previous, n - 1);
      assert forall x :: x in [b.value] + rest <==> x == b.value || x in rest;
    }
  }

  /** The genesis block's author is the only author of any committee. */
  lemma OneAuthor(db: Db, net: Network, genesis: Block)
    requires KnownStore(db, net, genesis)
    ensures Membership.Authors(Membership.Committee(db)) == if GetLatest(db).Some? then {genesis.publicKey} else {}
  {
    var window := Membership.Committee(db);
    WindowStored(db, GetLatest(db), SigningRuns.COSI_MEMBERS);
    forall b | b in window ensures b.publicKey == genesis.publicKey {
      var id :| id in db.blocks && db.blocks[id] == b;
    }
    if GetLatest(db).Some? {
      assert window[0] == GetLatest(db).value && window[0] in window;
    }
  }

  lemma MineKeeps(s: SigningRuns.State, w: nat, h: Id, author: Key, net: Network, genesis: Block)
    requires net.Valid() && SigningInv(s, net, genesis) && Minable(genesis)
    ensures SigningInv(SigningRuns.Apply(s, SigningRuns.Mine(w, h, author), net), net, genesis)
  {
    if w < |net.keys| {
      SentOwn(net, w, h, SigningRuns.Entry(author, []), genesis);
    }
  }

  lemma SentOwn(net: Network, w: nat, h: Id, e: SigningRuns.Entry, genesis: Block)
    requires net.Valid() && w < |net.keys| && e.collections == [] && Minable(genesis)
    ensures forall m :: m in SigningRuns.ToPeers(net, w, h, e) ==> OwnMessage(m, net, genesis)
  {
    SigningRuns.SentSourced(net, w, h, e);
    forall m | m in SigningRuns.ToPeers(net, w, h, e) ensures OwnMessage(m, net, genesis) {
      assert SigningRuns.MessageSourced(m, net);
    }
  }

  lemma CandidateKeeps(s: SigningRuns.State, m: SigningRuns.Message, timerRunning: bool, net: Network, genesis: Block)
    requires net.Valid() && SigningInv(s, net, genesis)
    requires !m.ProxyRequest? && (timerRunning ==> IsAuthor(m.to, net, genesis))
    ensures SigningInv(SigningRuns.Apply(s, SigningRuns.HandleCandidate(m, timerRunning), net), net, genesis)
  {
    if m in s.sent && m.Candidate? && timerRunning && m.hash !in s.buffers[m.to] {
      assert OwnMessage(m, net, genesis) && OwnBuffer(s.buffers[m.to], m.to, net, genesis);
      SigningRuns.FreshSignature(net.keys[m.to]);
      SentOwn(net, m.to, m.hash, m.entry, genesis);
    }
  }

  /** A proxy would send the author's buffer only to the author, and leaves it out. */
  lemma ForwardKeeps(s: SigningRuns.State, m: SigningRuns.Message, net: Network, genesis: Block)
    requires net.Valid() && SigningInv(s, net, genesis)
    ensures SigningInv(SigningRuns.Apply(s, SigningRuns.Forward(m, {genesis.publicKey}), net), net, genesis)
  {
    if m in s.sent && m.ProxyRequest? {
      assert OwnMessage(m, net, genesis);
    }
  }

  lemma SignKeeps(s: State, q: SigningRuns.Step, net: Network, genesis: Block)
    requires Inv(s, net, genesis) && Allowed(s, q, net)
    ensures SigningInv(SigningRuns.Apply(s.signing, q, net), net, genesis)
  {
    match q
    case Mine(w, h, author) =>
      var id :| id in s.dbs[w].blocks && s.dbs[w].blocks[id].ordered != [];
      assert KnownStore(s.dbs[w], net, genesis) && Minable(genesis);
      MineKeeps(s.signing, w, h, author, net, genesis);
    case HandleCandidate(m, timerRunning) => CandidateKeeps(s.signing, m, timerRunning, net, genesis);
    case SendBuffer(u) => assert IsAuthor(u, net, genesis);
    case Forward(m, members) =>
      var p :| 0 <= p < |s.dbs| && GetLatest(s.dbs[p]).Some? && members == Membership.ShadowedKeys(s.dbs[p]);
      assert KnownStore(s.dbs[p], net, genesis);
      LatestKnown(s.dbs[p], net, genesis);
      assert members == {genesis.publicKey};
      ForwardKeeps(s.signing, m, net, genesis);
    case HandleSignatureRequest(m, _) => assert m in s.signing.sent ==> OwnMessage(m, net, genesis);
  }

  /** A leader can pick a block at height 0 only, and what it picks is signed. */
  lemma PickedSigned(s: SigningRuns.State, u: nat, o: Ordered, height: nat, net: Network, genesis: Block)
    requires SigningInv(s, net, genesis) && Picked(s, u, o, height)
    ensures o.signers != [] && height == 0 && u < |net.keys| && SigningRuns.HasSource(net, u) && Minable(genesis)
  {
    var h :| SigningRuns.Selectable(s, u, h, height) && o == Ordered(s.buffers[u][h].author, Signing.Signers(s.buffers[u][h].collections));
    assert OwnBuffer(s.buffers[u], u, net, genesis);
    OwnSigner(net.keys[u]);
  }

  lemma OwnSigner(k: Key)
    ensures Signing.Signers([Signing.Signer(k)]) == [k]
  {
    assert [Signing.Signer(k)][..0] == [];
  }

  lemma SelectKeeps(s: State, u: nat, r: Referer, net: Network, genesis: Block)
    requires Inv(s, net, genesis) && u < |s.dbs| && u in s.leading && GetLatest(s.dbs[u]).Some?
    requires Selected(s.signing, u, r, GetLatest(s.dbs[u]).value.index)
    ensures Signed(r, net, genesis)
  {
    var latest := GetLatest(s.dbs[u]).value;
    assert KnownStore(s.dbs[u], net, genesis);
    LatestKnown(s.dbs[u], net, genesis);
    PickedSigned(s.signing, u, r.ordered[0], latest.index, net, genesis);
  }

  lemma UnsignedIsGenesis(b: Block, net: Network, genesis: Block)
    requires Known(b, net, genesis) && Unsigned(b)
    ensures b == genesis
  {
    if b.ordered != [] {
      assert b.ordered[0].signers == [];
    }
  }

  /** What a proposal produces is a first block: the block it copies is unsigned, and only the
      genesis block is. */
  lemma ProposalIsFirst(u: nat, r: Referer, latest: Block, now: Uint64, net: Network, genesis: Block, sha: Mining.Sha256)
    requires Signed(r, net, genesis) && Ready(u, r, latest, net, genesis) && Unsigned(latest)
    ensures latest == genesis && FirstBlock(Chain.Proposal(latest, now, net.keys[u], r.ordered, sha), net, genesis)
  {
    UnsignedIsGenesis(latest, net, genesis);
    var b := Chain.Proposal(latest, now, net.keys[u], r.ordered, sha);
    assert b.publicKey == net.keys[u] && b.ordered == r.ordered && b.index == genesis.index + 1;
  }

  lemma AdoptKnown(db: Db, b: Block, net: Network, genesis: Block)
    requires KnownStore(db, net, genesis) && Known(b, net, genesis)
    ensures KnownStore(Adopt(db, b), net, genesis) && KnownStore(Store(db, b), net, genesis) && KnownStore(Gossip(db, b), net, genesis)
  {
  }

  /** A node's store changes by a known block. */
  lemma StoreKeeps(s: State, u: nat, b: Block, db: Db, net: Network, genesis: Block)
    requires Inv(s, net, genesis) && u < |s.dbs| && Known(b, net, genesis)
    requires db == Adopt(s.dbs[u], b) || db == Store(s.dbs[u], b) || db == Gossip(s.dbs[u], b)
    ensures Inv(s.(dbs := s.dbs[u := db]), net, genesis) && Inv(s.(dbs := s.dbs[u := db], sent := s.sent + {b}), net, genesis)
  {
    assert KnownStore(s.dbs[u], net, genesis);
    AdoptKnown(s.dbs[u], b, net, genesis);
  }

  lemma TimerKeeps(s: State, u: nat, net: Network, genesis: Block, sha: Mining.Sha256)
    requires Inv(s, net, genesis)
    ensures Inv(Apply(s, StartTimer(u), net, genesis, sha), net, genesis)
    ensures Inv(Apply(s, EndTimer(u), net, genesis, sha), net, genesis)
  {
    if u < |s.dbs| {
      assert KnownStore(s.dbs[u], net, genesis);
      OneAuthor(s.dbs[u], net, genesis);
      if Leads(s.dbs[u], net.keys[u]) {
        LeadsIsLeader(s.dbs[u], u, net, genesis);
      }
    }
  }

  lemma ProposalStepKeeps(s: State, step: Step, net: Network, genesis: Block, sha: Mining.Sha256)
    requires Inv(s, net, genesis) && (step.Select? || step.Start? || step.Wait? || step.Propose?)
    ensures Inv(Apply(s, step, net, genesis, sha), net, genesis)
  {
    var u := step.node;
    if u < |s.dbs| {
      assert KnownStore(s.dbs[u], net, genesis);
      match step
      case Select(_, r) =>
        if u in s.leading && GetLatest(s.dbs[u]).Some? && Selected(s.signing, u, r, GetLatest(s.dbs[u]).value.index) { SelectKeeps(s, u, r, net, genesis); }
      case Start(_, r) => if Leads(s.dbs[u], net.keys[u]) { LeadsIsLeader(s.dbs[u], u, net, genesis); }
      case Wait(_, r) => if GetLatest(s.dbs[u]).Some? { LatestKnown(s.dbs[u], net, genesis); }
      case Propose(_, r, latest, now) =>
        if (u, r, latest) in s.waiting && Unsigned(latest) {
          ProposalIsFirst(u, r, latest, now, net, genesis, sha);
          var b := Chain.Proposal(latest, now, net.keys[u], r.ordered, sha);
          StoreKeeps(s, u, b, Adopt(s.dbs[u], b), net, genesis);
        }
    }
  }

  lemma StepKeepsInv(s: State, step: Step, net: Network, genesis: Block, sha: Mining.Sha256)
    requires Inv(s, net, genesis)
    ensures Inv(Apply(s, step, net, genesis, sha), net, genesis)
  {
    match step
    case Genesis(u) => if u < |s.dbs| { StoreKeeps(s, u, genesis, Adopt(s.dbs[u], genesis), net, genesis); }
    case StartTimer(u) => TimerKeeps(s, u, net, genesis, sha);
    case EndTimer(u) => TimerKeeps(s, u, net, genesis, sha);
    case Sign(q) => if Allowed(s, q, net) { SignKeeps(s, q, net, genesis); }
    case Select(_, _) => ProposalStepKeeps(s, step, net, genesis, sha);
    case Start(_, _) => ProposalStepKeeps(s, step, net, genesis, sha);
    case Wait(_, _) => ProposalStepKeeps(s, step, net, genesis, sha);
    case Propose(_, _, _, _) => ProposalStepKeeps(s, step, net, genesis, sha);
    case Deliver(u, b) => if u < |s.dbs| && b in s.sent { StoreKeeps(s, u, b, Gossip(s.dbs[u], b), net, genesis); }
    case Download(u, b, makeLatest) =>
      if u < |s.dbs| && b in s.sent { StoreKeeps(s, u, b, if makeLatest then Adopt(s.dbs[u], b) else Store(s.dbs[u], b), net, genesis); }
  }

  lemma {:induction false} RunKeeps(net: Network, genesis: Block, sha: Mining.Sha256, steps: seq<Step>)
    requires net.Valid()
    ensures Inv(Run(net, genesis, sha, steps), net, genesis)
  {
    if steps != [] {
      RunKeeps(net, genesis, sha, steps[..|steps| - 1]);
      StepKeepsInv(Run(net, genesis, sha, steps[..|steps| - 1]), steps[|steps| - 1], net, genesis, sha);
    }
  }

  /** Leadership never changes hands: in every run, every block but the genesis block was made
      by the leader the genesis block names, who is its author too, and names it again; only
      that node ever starts a proposal; and if genesis names no one there are no other blocks. */
  lemma LeadershipNeverRotates(net: Network, genesis: Block, sha: Mining.Sha256, steps: seq<Step>)
    requires net.Valid()
    ensures var s := Run(net, genesis, sha, steps);
            && (forall b :: b in s.sent && b != genesis ==>
                  genesis.ordered != [] && b.publicKey == genesis.ordered[0].key == genesis.publicKey && b.ordered != [] && b.ordered[0].key == b.publicKey)
            && (forall p :: p in s.started ==> IsLeader(p.0, net, genesis))
            && (forall u :: 0 <= u < |net.keys| && Leads(s.dbs[u], net.keys[u]) ==> IsLeader(u, net, genesis))
            && (genesis.ordered == [] ==> s.sent <= {genesis})
  {
    var s := Run(net, genesis, sha, steps);
    RunKeeps(net, genesis, sha, steps);
    forall u | 0 <= u < |net.keys| && Leads(s.dbs[u], net.keys[u]) ensures IsLeader(u, net, genesis) {
      assert KnownStore(s.dbs[u], net, genesis);
      LeadsIsLeader(s.dbs[u], u, net, genesis);
    }
  }

  /** The chain never gets past its first block: in every run, every block any node has is the
      genesis block or lies one height above it and carries signatures. No node can copy such a
      block again, so none can build on it, serve it, or walk its committee from it. */
  lemma NeverPastTheFirstBlock(net: Network, genesis: Block, sha: Mining.Sha256, steps: seq<Step>, u: nat, id: Id)
    requires net.Valid() && u < |net.keys| && id in Run(net, genesis, sha, steps).dbs[u].blocks
    ensures var b := Run(net, genesis, sha, steps).dbs[u].blocks[id];
            b == genesis || (b.index == genesis.index + 1 && !Unsigned(b) && !Chain.Copyable(Chain.Copied(Chain.Load(b.ordered))))
  {
    RunKeeps(net, genesis, sha, steps);
    var db := Run(net, genesis, sha, steps).dbs[u];
    assert KnownStore(db, net, genesis);
    Chain.ReadCopyableIff(db.blocks[id]);
  }

  /** Of the proposals that ever wait in a run, exactly those on an unsigned genesis block are
      made; all others crash the proposer when it copies its latest block. */
  lemma ProposalCrashesIff(net: Network, genesis: Block, sha: Mining.Sha256, steps: seq<Step>, u: nat, r: Referer, latest: Block)
    requires net.Valid() && (u, r, latest) in Run(net, genesis, sha, steps).waiting
    ensures !Chain.Copyable(Chain.Copied(Chain.Load(latest.ordered))) <==> latest != genesis || !Unsigned(genesis)
  {
    RunKeeps(net, genesis, sha, steps);
    assert Ready(u, r, latest, net, genesis);
    Chain.ReadCopyableIff(latest);
    if Unsigned(latest) {
      UnsignedIsGenesis(latest, net, genesis);
    }
  }

  /** The signing committee, up to eleven authors by design, never has more than one member, so
      the key map as it is written names all of it. */
  lemma CommitteeOfOne(net: Network, genesis: Block, sha: Mining.Sha256, steps: seq<Step>, u: nat)
    requires net.Valid() && u < |net.keys|
    ensures var db := Run(net, genesis, sha, steps).dbs[u];
            && Membership.Authors(Membership.Committee(db)) == (if GetLatest(db).Some? then {genesis.publicKey} else {})
            && Membership.ShadowedKeys(db) == Membership.Authors(Membership.Committee(db))
  {
    RunKeeps(net, genesis, sha, steps);
    var db := Run(net, genesis, sha, steps).dbs[u];
    assert KnownStore(db, net, genesis);
    OneAuthor(db, net, genesis);
    if GetLatest(db).Some? {
      LatestKnown(db, net, genesis);
    }
  }

  /** And no signature request ever reaches anyone. */
  lemma NoRequestArrives(net: Network, genesis: Block, sha: Mining.Sha256, steps: seq<Step>, m: SigningRuns.Message)
    requires net.Valid() && m in Run(net, genesis, sha, steps).signing.sent
    ensures !m.SignatureRequest?
  {
    RunKeeps(net, genesis, sha, steps);
    assert OwnMessage(m, net, genesis);
  }

  ghost predicate Reachable(s: State, net: Network, genesis: Block, sha: Mining.Sha256)
    requires |net.keys| == |net.peers|
  {
    exists steps :: s == Run(net, genesis, sha, steps)
  }

  lemma Next(s: State, step: Step, net: Network, genesis: Block, sha: Mining.Sha256) returns (t: State)
    requires |s.dbs| == |s.signing.buffers| == |net.keys| == |net.peers| && Reachable(s, net, genesis, sha)
    ensures t == Apply(s, step, net, genesis, sha) && Reachable(t, net, genesis, sha)
  {
    t := Apply(s, step, net, genesis, sha);
    var steps :| s == Run(net, genesis, sha, steps);
    assert (steps + [step])[..|steps|] == steps;
    assert t == Run(net, genesis, sha, steps + [step]);
  }

  /** Two nodes, which may be one, create the genesis block, and its author starts its timer. */
  lemma TimerStarted(net: Network, genesis: Block, sha: Mining.Sha256, w: nat, v: nat) returns (s: State)
    requires net.Valid() && w < |net.keys| && IsAuthor(v, net, genesis) && genesis.hash != []
    ensures |s.dbs| == |s.signing.buffers| == |net.keys| && Reachable(s, net, genesis, sha)
    ensures s.signing == SigningRuns.Initial(|net.keys|) && v in s.timers
    ensures genesis.hash in s.dbs[w].blocks && s.dbs[w].blocks[genesis.hash] == genesis && GetLatest(s.dbs[v]) == Some(genesis)
  {
    s := Initial(|net.keys|);
    assert s == Run(net, genesis, sha, []);
    s := Next(s, Genesis(w), net, genesis, sha);
    s := Next(s, Genesis(v), net, genesis, sha);
    assert GetLatest(s.dbs[v]) == Some(genesis);
    Membership.WindowStep(s.dbs[v], genesis, SigningRuns.COSI_MEMBERS);
    s := Next(s, StartTimer(v), net, genesis, sha);
  }

  /** A node that has the genesis block mines a candidate for its peers. */
  lemma CandidateMined(s: State, net: Network, genesis: Block, sha: Mining.Sha256, w: nat, v: nat, h: Id)
    requires |s.dbs| == |s.signing.buffers| == |net.keys| == |net.peers| && w < |net.keys| && v in net.peers[w] && |h| == HASH_SIZE
    requires genesis.hash in s.dbs[w].blocks && s.dbs[w].blocks[genesis.hash] == genesis && genesis.ordered != []
    ensures var e := SigningRuns.Entry(genesis.ordered[0].key, []);
            var t := Apply(s, Sign(SigningRuns.Mine(w, h, e.author)), net, genesis, sha);
            SigningRuns.Candidate(v, h, e) in t.signing.sent && t == s.(signing := t.signing) && t.signing.buffers == s.signing.buffers
  {
  }

  /** A node whose timer runs buffers a candidate. */
  lemma CandidateBuffered(s: State, net: Network, genesis: Block, sha: Mining.Sha256, v: nat, h: Id, author: Key)
    requires |s.dbs| == |s.signing.buffers| == |net.keys| == |net.peers| && v < |net.keys| && v in s.timers
    requires SigningRuns.Candidate(v, h, SigningRuns.Entry(author, [])) in s.signing.sent && s.signing.buffers[v] == map[]
    ensures var m := SigningRuns.Candidate(v, h, SigningRuns.Entry(author, []));
            var t := Apply(s, Sign(SigningRuns.HandleCandidate(m, true)), net, genesis, sha);
            && t == s.(signing := t.signing)
            && h in t.signing.buffers[v] && t.signing.buffers[v][h] == SigningRuns.Entry(author, [Signing.Signer(net.keys[v])])
  {
    SigningRuns.FreshSignature(net.keys[v]);
  }

  /** Then one mines a candidate, and the other buffers it while its timer runs. */
  lemma CandidateHeld(net: Network, genesis: Block, sha: Mining.Sha256, w: nat, v: nat, h: Id) returns (s: State)
    requires net.Valid() && w < |net.keys| && v in net.peers[w] && IsAuthor(v, net, genesis) && Minable(genesis) && |h| == HASH_SIZE
    ensures |s.dbs| == |s.signing.buffers| == |net.keys| && Reachable(s, net, genesis, sha)
    ensures v in s.timers && GetLatest(s.dbs[v]) == Some(genesis)
    ensures h in s.signing.buffers[v] && s.signing.buffers[v][h] == SigningRuns.Entry(genesis.ordered[0].key, [Signing.Signer(net.keys[v])])
  {
    var author := genesis.ordered[0].key;
    var s1 := TimerStarted(net, genesis, sha, w, v);
    CandidateMined(s1, net, genesis, sha, w, v, h);
    var s2 := Next(s1, Sign(SigningRuns.Mine(w, h, author)), net, genesis, sha);
    CandidateBuffered(s2, net, genesis, sha, v, h, author);
    s := Next(s2, Sign(SigningRuns.HandleCandidate(SigningRuns.Candidate(v, h, SigningRuns.Entry(author, [])), true)), net, genesis, sha);
  }

  /** With chain, timers and key maps as they are, a node can come to have a selectable block
      exactly at height 0, and exactly when it has the key of the genesis block's author, some
      node has it as a peer, and miners have something to mine for. */
  lemma SelectableInRunsIff(net: Network, genesis: Block, sha: Mining.Sha256, v: nat, height: nat)
    requires net.Valid() && v < |net.keys|
    ensures (exists s, h :: Reachable(s, net, genesis, sha) && SigningRuns.Selectable(s.signing, v, h, height)) <==>
            height == 0 && IsAuthor(v, net, genesis) && SigningRuns.HasSource(net, v) && Minable(genesis)
  {
    if height == 0 && IsAuthor(v, net, genesis) && SigningRuns.HasSource(net, v) && Minable(genesis) {
      var w: nat :| w < |net.peers| && v in net.peers[w];
      var h := SigningRuns.HashOtherThan([]);
      var s := CandidateHeld(net, genesis, sha, w, v, h);
      assert SigningRuns.Selectable(s.signing, v, h, 0);
    } else {
      forall s, h | Reachable(s, net, genesis, sha) ensures !SigningRuns.Selectable(s.signing, v, h, height) {
        var steps :| s == Run(net, genesis, sha, steps);
        RunKeeps(net, genesis, sha, steps);
        assert OwnBuffer(s.signing.buffers[v], v, net, genesis);
      }
    }
  }

  /** A member that leads its latest block ends its timer. */
  lemma EndsLeading(s: State, u: nat, net: Network, genesis: Block, sha: Mining.Sha256)
    requires |s.dbs| == |s.signing.buffers| == |net.keys| == |net.peers| && u < |s.dbs| && u in s.timers
    requires GetLatest(s.dbs[u]) == Some(genesis) && IsLeader(u, net, genesis) && IsAuthor(u, net, genesis)
    ensures var t := Apply(s, EndTimer(u), net, genesis, sha); u in t.leading && t.signing == s.signing && t.dbs == s.dbs
  {
    Membership.WindowStep(s.dbs[u], genesis, SigningRuns.COSI_MEMBERS);
  }

  /** It selects the one candidate it has. */
  lemma SelectsOne(s: State, u: nat, h: Id, net: Network, genesis: Block, sha: Mining.Sha256) returns (r: Referer)
    requires |s.dbs| == |s.signing.buffers| == |net.keys| == |net.peers| && u < |s.dbs| && u in s.leading
    requires GetLatest(s.dbs[u]) == Some(genesis) && genesis.index == 0
    requires h in s.signing.buffers[u] && s.signing.buffers[u][h] == SigningRuns.Entry(net.keys[u], [Signing.Signer(net.keys[u])])
    ensures var t := Apply(s, Select(u, r), net, genesis, sha); (u, r) in t.started && t.dbs == s.dbs
    ensures r.ordered == [Ordered(net.keys[u], [net.keys[u]])]
  {
    r := RefererFlood.Referer([], [Ordered(net.keys[u], [net.keys[u]])]);
    OwnSigner(net.keys[u]);
    assert SigningRuns.Selectable(s.signing, u, h, 0) && Picked(s.signing, u, r.ordered[0], 0);
  }

  /** The leader and a node that has it as a peer. */
  lemma LeaderAndSource(net: Network, genesis: Block) returns (u: nat, w: nat)
    requires net.Valid() && CanSelect(net, genesis)
    ensures IsLeader(u, net, genesis) && IsAuthor(u, net, genesis) && w < |net.keys| && u in net.peers[w]
  {
    u :| IsLeader(u, net, genesis) && SigningRuns.HasSource(net, u);
    w :| w < |net.peers| && u in net.peers[w];
  }

  /** A selection of the leader's, waiting to be proposed on the genesis block. */
  lemma SelectionMade(net: Network, genesis: Block, sha: Mining.Sha256) returns (s: State, u: nat, r: Referer)
    requires net.Valid() && CanSelect(net, genesis)
    ensures |s.dbs| == |s.signing.buffers| == |net.keys| && Reachable(s, net, genesis, sha)
    ensures u < |s.dbs| && (u, r) in s.started && GetLatest(s.dbs[u]) == Some(genesis) && r.ordered == [Ordered(net.keys[u], [net.keys[u]])]
  {
    var w;
    u, w := LeaderAndSource(net, genesis);
    var h := SigningRuns.HashOtherThan([]);
    var s1 := CandidateHeld(net, genesis, sha, w, u, h);
    EndsLeading(s1, u, net, genesis, sha);
    var s2 := Next(s1, EndTimer(u), net, genesis, sha);
    r := SelectsOne(s2, u, h, net, genesis, sha);
    s := Next(s2, Select(u, r), net, genesis, sha);
  }

  /** Its goroutine waits on the genesis block. */
  lemma WaitingOnGenesis(net: Network, genesis: Block, sha: Mining.Sha256) returns (s: State, u: nat, r: Referer)
    requires net.Valid() && CanSelect(net, genesis)
    ensures |s.dbs| == |s.signing.buffers| == |net.keys| && Reachable(s, net, genesis, sha)
    ensures u < |s.dbs| && (u, r, genesis) in s.waiting
  {
    var s1;
    s1, u, r := SelectionMade(net, genesis, sha);
    s := Next(s1, Wait(u, r), net, genesis, sha);
  }

  lemma ProposalSent(s: State, u: nat, r: Referer, net: Network, genesis: Block, sha: Mining.Sha256)
    requires |s.dbs| == |s.signing.buffers| == |net.keys| == |net.peers| && u < |s.dbs|
    requires (u, r, genesis) in s.waiting && Unsigned(genesis) && genesis.index == 0
    ensures var b := Chain.Proposal(genesis, 0, net.keys[u], r.ordered, sha);
            b != genesis && b in Apply(s, Propose(u, r, genesis, 0), net, genesis, sha).sent
  {
    assert Chain.Proposal(genesis, 0, net.keys[u], r.ordered, sha).index == 1;
  }

  lemma FirstProposal(net: Network, genesis: Block, sha: Mining.Sha256) returns (s: State, b: Block)
    requires net.Valid() && CanGrow(net, genesis)
    ensures Reachable(s, net, genesis, sha) && b in s.sent && b != genesis
  {
    var s1, u, r := WaitingOnGenesis(net, genesis, sha);
    ProposalSent(s1, u, r, net, genesis, sha);
    s := Next(s1, Propose(u, r, genesis, 0), net, genesis, sha);
    b := Chain.Proposal(genesis, 0, net.keys[u], r.ordered, sha);
  }

  /** A chain gets its first block in some run exactly when the genesis block can be stored, is
      unsigned, lies at height 0, and names its own author as leader, and that is a node of the
      network which some node has as a peer. */
  lemma GrowsIff(net: Network, genesis: Block, sha: Mining.Sha256)
    requires net.Valid()
    ensures (exists s, b :: Reachable(s, net, genesis, sha) && b in s.sent && b != genesis) <==> CanGrow(net, genesis)
  {
    if CanGrow(net, genesis) {
      var s, b := FirstProposal(net, genesis, sha);
    } else {
      forall s, b | Reachable(s, net, genesis, sha) && b in s.sent ensures b == genesis {
        var steps :| s == Run(net, genesis, sha, steps);
        RunKeeps(net, genesis, sha, steps);
      }
    }
  }
}
