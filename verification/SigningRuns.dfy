/** All runs of the signature exchange over a network of nodes: mined candidates are flooded
    unsigned to peers, a node whose timer runs buffers its own signed copy and passes the
    candidate on, buffers are sent to proxies, and a proxy sends each block on to the nodes its
    key map names, except the one it came from; there it is buffered, or, if it is already held,
    signed again under its own hash. When timers run and what key maps hold is left open here.
    Messages stay available once sent, so loss, repetition and reordering are all covered. */
module SigningRuns {
  import opened Bytes
  import opened Flood
  import opened HashBytes
  import opened Signing

  /** Members taking part in collective signing. */
  const COSI_MEMBERS := 11

  /** The nodes' public keys and peers. */
  datatype Network = Network(keys: seq<Key>, peers: Graph)
  {
    ghost predicate Valid() {
      |keys| == |peers| && ValidGraph(peers)
    }
  }

  /** A candidate block's author and the collections it has in some place. */
  datatype Entry = Entry(author: Key, collections: seq<Collection>)

  type Buffer = map<Id, Entry>

  datatype Message =
    | Candidate(to: nat, hash: Id, entry: Entry)
    | ProxyRequest(sender: Key, hash: Id, entry: Entry)
    | SignatureRequest(to: nat, hash: Id, entry: Entry)

  datatype State = State(buffers: seq<Buffer>, sent: set<Message>, crashed: bool)

  datatype Step =
    | Mine(node: nat, hash: Id, author: Key)
    | HandleCandidate(message: Message, timerRunning: bool)
    | SendBuffer(node: nat)
    | Forward(message: Message, members: set<Key>)  // a proxy whose key map holds these members
    | HandleSignatureRequest(message: Message, active: bool)

  function Initial(n: nat): State {
    State(seq(n, _ => map[]), {}, false)
  }

  function ToPeers(net: Network, u: nat, hash: Id, entry: Entry): set<Message>
    requires u < |net.peers|
  {
    set v | v in net.peers[u] :: Candidate(v, hash, entry)
  }

  function AfterRequest(buffer: Buffer, hash: Id, entry: Entry): Buffer {
    if hash in buffer then buffer[hash := Entry(buffer[hash].author, Signed(buffer[hash].collections, hash))] else buffer[hash := entry]
  }

  /** One atomic step; a step that is not enabled changes nothing. Mining may find any digest. */
  function Apply(s: State, step: Step, net: Network): (t: State)
    requires |s.buffers| == |net.keys| == |net.peers|
    ensures |t.buffers| == |s.buffers|
  {
    match step
    case Mine(w, hash, author) =>
      if w >= |net.keys| || |hash| != HASH_SIZE then s else s.(sent := s.sent + ToPeers(net, w, hash, Entry(author, [])))
    case HandleCandidate(m, timerRunning) =>
      if !m.Candidate? || m !in s.sent || m.to >= |net.keys| || !timerRunning || m.hash in s.buffers[m.to] then s
      else
        var copied := CopyCollections(m.entry.collections);
        if Search(copied, net.keys[m.to]).Crash? then s.(crashed := true)
        else s.(buffers := s.buffers[m.to := s.buffers[m.to][m.hash := Entry(m.entry.author, Signed(copied, net.keys[m.to]))]],
                sent := s.sent + ToPeers(net, m.to, m.hash, m.entry))
    case SendBuffer(u) =>
      if u >= |net.keys| then s
      else s.(sent := s.sent + set h | h in s.buffers[u] :: ProxyRequest(net.keys[u], h, s.buffers[u][h]))
    case Forward(m, members) =>
      if !m.ProxyRequest? || m !in s.sent then s
      else s.(sent := s.sent + set v | 0 <= v < |net.keys| && net.keys[v] in members && net.keys[v] != m.sender :: SignatureRequest(v, m.hash, m.entry))
    case HandleSignatureRequest(m, active) =>
      if !m.SignatureRequest? || m !in s.sent || m.to >= |net.keys| || !active then s
      else if m.hash in s.buffers[m.to] && Search(s.buffers[m.to][m.hash].collections, m.hash).Crash? then s.(crashed := true)
      else s.(buffers := s.buffers[m.to := AfterRequest(s.buffers[m.to], m.hash, m.entry)])
  }

  function Run(s: State, steps: seq<Step>, net: Network): (t: State)
    requires |s.buffers| == |net.keys| == |net.peers|
    ensures |t.buffers| == |s.buffers|
  {
    if steps == [] then s else Apply(Run(s, steps[..|steps| - 1], net), steps[|steps| - 1], net)
  }

  /** One signer, or one signer and then the block's own hash. */
  ghost predicate OneSigner(hash: Id, cs: seq<Collection>) {
    || (|cs| == 1 && cs[0].Signer?)
    || (|cs| == 2 && cs[0].Signer? && cs[0].key != hash && cs[1] == Signer(hash))
  }

  ghost predicate BufferInv(b: Buffer) {
    forall h :: h in b ==> OneSigner(h, b[h].collections)
  }

  ghost predicate MessageInv(m: Message) {
    if m.Candidate? then m.entry.collections == [] else OneSigner(m.hash, m.entry.collections)
  }

  ghost predicate Inv(s: State) {
    && !s.crashed
    && (forall v :: 0 <= v < |s.buffers| ==> BufferInv(s.buffers[v]))
    && (forall m :: m in s.sent ==> MessageInv(m))
  }

  lemma ResignShape(hash: Id, cs: seq<Collection>)
    requires OneSigner(hash, cs)
    ensures Search(cs, hash) != Crash && OneSigner(hash, Signed(cs, hash))
    ensures |Signed(cs, hash)| == 2 <==> |cs| == 2 || cs[0] != Signer(hash)
  {
    SearchFinds(cs, hash);
  }

  lemma FreshSignature(key: Key)
    ensures Search(CopyCollections([]), key).Missing?
    ensures Signed(CopyCollections([]), key) == [Signer(key)]
  {
    assert CopyCollections([]) == [];
  }

  lemma StepKeepsInv(s: State, step: Step, net: Network)
    requires Inv(s) && |s.buffers| == |net.keys| == |net.peers|
    ensures Inv(Apply(s, step, net))
  {
    match step
    case Mine(_, _, _) =>
    case HandleCandidate(m, _) =>
      if m in s.sent && m.Candidate? && m.to < |net.keys| {
        assert MessageInv(m) && BufferInv(s.buffers[m.to]);
        FreshSignature(net.keys[m.to]);
      }
    case SendBuffer(u) => if u < |net.keys| { assert BufferInv(s.buffers[u]); }
    case Forward(m, _) => assert m in s.sent ==> MessageInv(m);
    case HandleSignatureRequest(m, _) =>
      if m in s.sent && m.SignatureRequest? && m.to < |net.keys| {
        assert MessageInv(m) && BufferInv(s.buffers[m.to]);
        if m.hash in s.buffers[m.to] {
          ResignShape(m.hash, s.buffers[m.to][m.hash].collections);
        }
      }
  }

  lemma {:induction false} RunKeepsInv(net: Network, steps: seq<Step>)
    requires |net.keys| == |net.peers|
    ensures Inv(Run(Initial(|net.keys|), steps, net))
  {
    if steps != [] {
      RunKeepsInv(net, steps[..|steps| - 1]);
      StepKeepsInv(Run(Initial(|net.keys|), steps[..|steps| - 1], net), steps[|steps| - 1], net);
    }
  }

  /** The blocks the leader may propose: those with more than min(11, height) entries. */
  ghost predicate Selectable(s: State, v: nat, hash: Id, height: nat) {
    && v < |s.buffers| && hash in s.buffers[v]
    && |s.buffers[v][hash].collections| > if height < COSI_MEMBERS then height else COSI_MEMBERS
  }

  /** No run crashes and none gives a block a third entry, so from height 2 on no leader ever
      has a block to propose; at height 1 it needs the hash signature, at height 0 none. */
  lemma NoBlockSelectableFromHeightTwo(net: Network, steps: seq<Step>, v: nat, hash: Id, height: nat)
    requires |net.keys| == |net.peers|
    ensures var s := Run(Initial(|net.keys|), steps, net);
            && !s.crashed
            && (height >= 2 ==> !Selectable(s, v, hash, height))
            && (height == 1 && Selectable(s, v, hash, 1) ==> s.buffers[v][hash].collections[1] == Signer(hash))
            && (height == 0 ==> (Selectable(s, v, hash, 0) <==> v < |s.buffers| && hash in s.buffers[v]))
  {
    RunKeepsInv(net, steps);
    assert v < |net.keys| ==> BufferInv(Run(Initial(|net.keys|), steps, net).buffers[v]);
  }

  /** Some node can send v a candidate it mines. */
  ghost predicate HasSource(net: Network, v: nat) {
    exists w: nat :: w < |net.peers| && v in net.peers[w]
  }

  /** Some node's buffer would be sent on to v. */
  ghost predicate HasRequester(net: Network, v: nat)
    requires v < |net.keys|
  {
    exists a: nat :: a < |net.keys| && net.keys[a] != net.keys[v]
  }

  ghost predicate SomeSource(net: Network) {
    exists v: nat :: v < |net.keys| && HasSource(net, v)
  }

  /** Where the blocks of a run come from. */
  ghost predicate Sourced(s: State, net: Network) {
    && |s.buffers| == |net.keys| == |net.peers| && ValidGraph(net.peers)
    && (forall v :: 0 <= v < |s.buffers| ==> BufferSourced(s.buffers[v], net, v))
    && (forall m :: m in s.sent ==> MessageSourced(m, net))
  }

  ghost predicate BufferSourced(b: Buffer, net: Network, v: nat)
    requires v < |net.keys|
  {
    && (b != map[] ==> SomeSource(net) && (HasSource(net, v) || HasRequester(net, v)))
    && (!HasRequester(net, v) ==> forall h :: h in b ==> |b[h].collections| <= 1)
  }

  ghost predicate MessageSourced(m: Message, net: Network) {
    match m
    case Candidate(to, _, _) => to < |net.keys| && HasSource(net, to)
    case ProxyRequest(sender, _, _) => SomeSource(net) && sender in net.keys
    case SignatureRequest(to, _, _) => SomeSource(net) && to < |net.keys| && HasRequester(net, to)
  }

  lemma CandidateSourced(s: State, m: Message, net: Network)
    requires Sourced(s, net) && Inv(s) && m in s.sent && m.Candidate? && m.hash !in s.buffers[m.to]
    ensures m.to < |net.keys| && Sourced(Apply(s, HandleCandidate(m, true), net), net)
  {
    assert MessageSourced(m, net) && MessageInv(m) && BufferSourced(s.buffers[m.to], net, m.to);
    FreshSignature(net.keys[m.to]);
    SentSourced(net, m.to, m.hash, m.entry);
    var b := s.buffers[m.to][m.hash := Entry(m.entry.author, [Signer(net.keys[m.to])])];
    assert BufferSourced(b, net, m.to);
  }

  lemma SentSourced(net: Network, w: nat, hash: Id, entry: Entry)
    requires |net.keys| == |net.peers| && ValidGraph(net.peers) && w < |net.keys|
    ensures forall m :: m in ToPeers(net, w, hash, entry) ==> MessageSourced(m, net)
  {
    forall v | v in net.peers[w] ensures v < |net.keys| && HasSource(net, v) {
      var i :| 0 <= i < |net.peers[w]| && net.peers[w][i] == v;
    }
  }

  lemma ForwardSourced(s: State, m: Message, members: set<Key>, net: Network)
    requires Sourced(s, net)
    ensures Sourced(Apply(s, Forward(m, members), net), net)
  {
    if m in s.sent && m.ProxyRequest? {
      assert MessageSourced(m, net);
      forall v | 0 <= v < |net.keys| && net.keys[v] != m.sender ensures HasRequester(net, v) {
        var a: nat :| a < |net.keys| && net.keys[a] == m.sender;
      }
    }
  }

  lemma RequestSourced(s: State, m: Message, net: Network)
    requires Sourced(s, net) && Inv(s) && m in s.sent && m.SignatureRequest?
    ensures m.to < |net.keys| && Sourced(Apply(s, HandleSignatureRequest(m, true), net), net)
  {
    assert MessageSourced(m, net) && BufferSourced(s.buffers[m.to], net, m.to);
    assert BufferSourced(AfterRequest(s.buffers[m.to], m.hash, m.entry), net, m.to);
  }

  lemma StepKeepsSourced(s: State, step: Step, net: Network)
    requires Sourced(s, net) && Inv(s)
    ensures Sourced(Apply(s, step, net), net)
  {
    match step
    case Mine(w, hash, author) => if w < |net.keys| { SentSourced(net, w, hash, Entry(author, [])); }
    case HandleCandidate(m, timerRunning) =>
      if m in s.sent && m.Candidate? {
        assert MessageSourced(m, net);
        if timerRunning && m.hash !in s.buffers[m.to] { CandidateSourced(s, m, net); }
      }
    case SendBuffer(u) => if u < |net.keys| { assert BufferSourced(s.buffers[u], net, u); }
    case Forward(m, members) => ForwardSourced(s, m, members, net);
    case HandleSignatureRequest(m, active) => if m in s.sent && m.SignatureRequest? && active { RequestSourced(s, m, net); }
  }

  lemma {:induction false} RunKeepsSourced(net: Network, steps: seq<Step>)
    requires net.Valid()
    ensures Sourced(Run(Initial(|net.keys|), steps, net), net)
  {
    if steps != [] {
      RunKeepsSourced(net, steps[..|steps| - 1]);
      RunKeepsInv(net, steps[..|steps| - 1]);
      StepKeepsSourced(Run(Initial(|net.keys|), steps[..|steps| - 1], net), steps[|steps| - 1], net);
    }
  }

  ghost predicate Reachable(s: State, net: Network)
    requires |net.keys| == |net.peers|
  {
    exists steps :: s == Run(Initial(|net.keys|), steps, net)
  }

  lemma Reaches(s: State, step: Step, net: Network)
    requires |net.keys| == |net.peers| && |s.buffers| == |net.keys| && Reachable(s, net)
    ensures Reachable(Apply(s, step, net), net)
  {
    var steps :| s == Run(Initial(|net.keys|), steps, net);
    assert (steps + [step])[..|steps|] == steps;
    assert Apply(s, step, net) == Run(Initial(|net.keys|), steps + [step], net);
  }

  /** The node holds the block with one signature, not the block's own hash. */
  ghost predicate HoldsOnce(s: State, v: nat, h: Id) {
    && v < |s.buffers| && h in s.buffers[v]
    && |s.buffers[v][h].collections| == 1 && s.buffers[v][h].collections[0].Signer? && s.buffers[v][h].collections[0] != Signer(h)
  }

  /** A digest that is not this key. */
  function HashOtherThan(k: Key): (h: Id)
    ensures |h| == HASH_SIZE && h != k
  {
    var zeros: Id := seq(HASH_SIZE, _ => 0);
    assert zeros[0 := 1][0] != zeros[0];
    if k == zeros then zeros[0 := 1] else zeros
  }

  /** A node mines a candidate and a peer buffers it. */
  lemma MinedAndHeld(net: Network, w: nat, v: nat, h: Id) returns (s: State)
    requires net.Valid() && w < |net.peers| && v in net.peers[w] && v < |net.keys| && net.keys[v] != h && |h| == HASH_SIZE
    ensures Reachable(s, net) && |s.buffers| == |net.keys| && HoldsOnce(s, v, h)
    ensures forall u :: 0 <= u < |net.keys| && u != v ==> s.buffers[u] == map[]
  {
    var s0 := Initial(|net.keys|);
    assert s0 == Run(s0, [], net);
    var m := Candidate(v, h, Entry(net.keys[v], []));
    Reaches(s0, Mine(w, h, net.keys[v]), net);
    var s1 := Apply(s0, Mine(w, h, net.keys[v]), net);
    assert m in s1.sent;
    FreshSignature(net.keys[v]);
    Reaches(s1, HandleCandidate(m, true), net);
    s := Apply(s1, HandleCandidate(m, true), net);
  }

  /** A node that holds a block sends it, and a proxy sends it on to a node with another key. */
  lemma SentOn(net: Network, s: State, a: nat, v: nat, h: Id) returns (t: State, q: Message)
    requires net.Valid() && Reachable(s, net) && |s.buffers| == |net.keys| && a < |net.keys| && v < |net.keys|
    requires HoldsOnce(s, a, h) && net.keys[a] != net.keys[v]
    ensures Reachable(t, net) && t.buffers == s.buffers
    ensures q in t.sent && q == SignatureRequest(v, h, s.buffers[a][h])
  {
    var m := ProxyRequest(net.keys[a], h, s.buffers[a][h]);
    Reaches(s, SendBuffer(a), net);
    var s1 := Apply(s, SendBuffer(a), net);
    assert m in s1.sent;
    Reaches(s1, Forward(m, {net.keys[v]}), net);
    t := Apply(s1, Forward(m, {net.keys[v]}), net);
    q := SignatureRequest(v, h, s.buffers[a][h]);
    assert q in t.sent;
  }

  /** A request for a block the node does not hold. */
  lemma RequestHeld(net: Network, s: State, q: Message) returns (t: State)
    requires net.Valid() && Reachable(s, net) && |s.buffers| == |net.keys| && q in s.sent && q.SignatureRequest? && q.to < |net.keys|
    requires q.hash !in s.buffers[q.to] && |q.entry.collections| == 1 && q.entry.collections[0].Signer? && q.entry.collections[0] != Signer(q.hash)
    ensures Reachable(t, net) && |t.buffers| == |s.buffers| && q in t.sent && HoldsOnce(t, q.to, q.hash)
    ensures forall u :: 0 <= u < |net.keys| && u != q.to ==> t.buffers[u] == s.buffers[u]
  {
    Reaches(s, HandleSignatureRequest(q, true), net);
    t := Apply(s, HandleSignatureRequest(q, true), net);
  }

  /** And for one it holds. */
  lemma RequestSigned(net: Network, s: State, q: Message) returns (t: State)
    requires net.Valid() && Reachable(s, net) && |s.buffers| == |net.keys| && q in s.sent && q.SignatureRequest? && HoldsOnce(s, q.to, q.hash)
    ensures Reachable(t, net) && Selectable(t, q.to, q.hash, 1)
  {
    SearchFinds(s.buffers[q.to][q.hash].collections, q.hash);
    Reaches(s, HandleSignatureRequest(q, true), net);
    t := Apply(s, HandleSignatureRequest(q, true), net);
  }

  /** A block sent on to v, once if v holds it already and otherwise twice. */
  lemma TwiceSigned(net: Network, s: State, a: nat, v: nat, h: Id) returns (t: State)
    requires net.Valid() && Reachable(s, net) && |s.buffers| == |net.keys| && a < |net.keys| && v < |net.keys|
    requires HoldsOnce(s, a, h) && net.keys[a] != net.keys[v] && (h !in s.buffers[v] || HoldsOnce(s, v, h))
    ensures Reachable(t, net) && Selectable(t, v, h, 1)
  {
    var s1, q := SentOn(net, s, a, v, h);
    if h !in s.buffers[v] {
      s1 := RequestHeld(net, s1, q);
    }
    t := RequestSigned(net, s1, q);
  }

  lemma SelectableAtOne(net: Network, v: nat) returns (s: State, h: Id)
    requires net.Valid() && v < |net.keys| && SomeSource(net) && HasRequester(net, v)
    ensures Reachable(s, net) && Selectable(s, v, h, 1)
  {
    var b: nat :| b < |net.keys| && HasSource(net, b);
    var w: nat :| w < |net.peers| && b in net.peers[w];
    h := HashOtherThan(net.keys[b]);
    s := MinedAndHeld(net, w, b, h);
    if net.keys[b] != net.keys[v] {
      s := TwiceSigned(net, s, b, v, h);
    } else {
      var a: nat :| a < |net.keys| && net.keys[a] != net.keys[v];
      var s1, q := SentOn(net, s, b, a, h);
      s1 := RequestHeld(net, s1, q);
      s := TwiceSigned(net, s1, a, v, h);
    }
  }

  /** What the exchange alone allows, whatever timers and key maps do: a node can come to have a
      block that is selectable at height 0 exactly when some node has it as a peer, or some node
      has a peer at all and not all nodes have its key; at height 1 exactly in the second case;
      and from height 2 on never. */
  lemma SelectableIff(net: Network, v: nat, height: nat)
    requires net.Valid() && v < |net.keys|
    ensures (exists s, h :: Reachable(s, net) && Selectable(s, v, h, height)) <==>
            (height == 0 && HasSource(net, v)) || (height <= 1 && SomeSource(net) && HasRequester(net, v))
  {
    if height <= 1 && SomeSource(net) && HasRequester(net, v) {
      var s, h := SelectableAtOne(net, v);
      assert Selectable(s, v, h, height);
    } else if height == 0 && HasSource(net, v) {
      var w: nat :| w < |net.peers| && v in net.peers[w];
      var h := HashOtherThan(net.keys[v]);
      var s := MinedAndHeld(net, w, v, h);
      assert Selectable(s, v, h, 0);
    } else {
      forall s, h | Reachable(s, net) ensures !Selectable(s, v, h, height) {
        var steps :| s == Run(Initial(|net.keys|), steps, net);
        RunKeepsSourced(net, steps);
        NoBlockSelectableFromHeightTwo(net, steps, v, h, height);
        assert BufferSourced(s.buffers[v], net, v);
      }
    }
  }

  /** What a node has collected is never taken away. */
  lemma {:induction false} SignersStay(s: State, steps: seq<Step>, net: Network, v: nat, hash: Id)
    requires |s.buffers| == |net.keys| == |net.peers| && v < |s.buffers| && hash in s.buffers[v]
    ensures var t := Run(s, steps, net); hash in t.buffers[v] && s.buffers[v][hash].collections <= t.buffers[v][hash].collections
  {
    if steps != [] {
      SignersStay(s, steps[..|steps| - 1], net, v, hash);
    }
  }

  /** What the buffer's objects hold of a node's buffer. */
  function Held(b: Buffer): map<Id, seq<Collection>> {
    map h | h in b :: b[h].collections
  }

  /** The buffer's Set is the model's handling of a request: a block that is not held is buffered
      as it came, and one that is held is signed under its own hash. */
  lemma SetIsRequest(buffer: Buffer, hash: Id, entry: Entry)
    ensures var after := AfterRequest(buffer, hash, entry);
            && AfterSet(Held(buffer), hash, entry.collections) == Held(after)
            && (forall h :: h in buffer && h != hash ==> h in after && after[h] == buffer[h])
            && hash in after
            && (hash !in buffer ==> after[hash] == entry)
            && (hash in buffer ==> after[hash].author == buffer[hash].author)
            && (hash in buffer && Passed(buffer[hash].collections, hash) ==>
                  after[hash].collections == buffer[hash].collections + [Signer(hash)])
            && (hash in buffer && !Passed(buffer[hash].collections, hash) ==> after[hash] == buffer[hash])
  {
    if hash in buffer {
      var i := SearchEnds(buffer[hash].collections, hash);
    }
  }

  /** What the leader chooses from when a timer ends: nothing exactly when no block is selectable
      at the latest height, and otherwise exactly the selectable blocks, each once. */
  method SelectBlocks(buffer: BlockBuffer, latestIndex: Uint64, ghost s: State, ghost v: nat) returns (blocks: seq<Block>)
    requires buffer.Valid()
    requires v < |s.buffers| && buffer.Contents() == Held(s.buffers[v])
    ensures blocks == [] <==> !exists h :: Selectable(s, v, h, latestIndex)
    ensures blocks == [] <==> forall h :: h in buffer.Contents() ==> |buffer.Contents()[h]| <= if latestIndex < 11 then latestIndex else 11
    ensures forall b :: b in blocks <==> b.hash in buffer.blockMap && buffer.blockMap[b.hash] == b && Selectable(s, v, b.hash, latestIndex)
    ensures forall i, j :: 0 <= i < j < |blocks| ==> blocks[i] != blocks[j]
  {
    var memberLen: Uint64 := COSI_MEMBERS;
    if latestIndex < memberLen {
      memberLen := latestIndex;
    }
    blocks := buffer.HalfMore(memberLen);
    assert forall h :: h in buffer.blockMap ==> buffer.Contents()[h] == buffer.blockMap[h].collections;
    assert forall h :: Selectable(s, v, h, latestIndex) <==> h in buffer.Contents() && |buffer.Contents()[h]| > memberLen;
  }

  /** A node has mined a block with this hash and author. */
  ghost predicate Mined(steps: seq<Step>, h: Id, author: Key) {
    exists i :: 0 <= i < |steps| && steps[i].Mine? && steps[i].hash == h && steps[i].author == author
  }

  ghost predicate BlocksMined(s: State, steps: seq<Step>) {
    && (forall v, h :: 0 <= v < |s.buffers| && h in s.buffers[v] ==> Mined(steps, h, s.buffers[v][h].author))
    && (forall m :: m in s.sent ==> Mined(steps, m.hash, m.entry.author))
  }

  lemma MinedStays(front: seq<Step>, step: Step)
    ensures forall h, author :: Mined(front, h, author) ==> Mined(front + [step], h, author)
    ensures step.Mine? ==> Mined(front + [step], step.hash, step.author)
  {
    forall h, author | Mined(front, h, author) ensures Mined(front + [step], h, author) {
      var i :| 0 <= i < |front| && front[i].Mine? && front[i].hash == h && front[i].author == author;
      assert (front + [step])[i] == front[i];
    }
    assert (front + [step])[|front|] == step;
  }

  lemma StepKeepsMined(s: State, steps: seq<Step>, step: Step, net: Network)
    requires |s.buffers| == |net.keys| == |net.peers| && BlocksMined(s, steps)
    ensures BlocksMined(Apply(s, step, net), steps + [step])
  {
    MinedStays(steps, step);
  }

  /** Nothing is invented and no author is changed: whatever a node holds or was sent, some node
      mined with that hash and that author. */
  lemma {:induction false} AuthorsKept(net: Network, steps: seq<Step>)
    requires |net.keys| == |net.peers|
    ensures BlocksMined(Run(Initial(|net.keys|), steps, net), steps)
  {
    if steps != [] {
      var front, step := steps[..|steps| - 1], steps[|steps| - 1];
      AuthorsKept(net, front);
      StepKeepsMined(Run(Initial(|net.keys|), front, net), front, step, net);
      assert steps == front + [step];
    }
  }

  /** With the signatures of all members and nothing else, the full member count as threshold
      is out of reach: a block qualifies for none of its members' counts. */
  lemma FullCountOutOfReach(cs: seq<Collection>, members: set<Key>, t: nat)
    requires DistinctSigners(cs) && Keys(cs) <= members && |members| <= t
    ensures |cs| <= t
  {
    CountIsKeys(cs);
    SubsetSize(Keys(cs), members);
  }

  /** A node's handling of a candidate: unless its timer is off or it has the block, it buffers
      a signed copy and passes the block on. A block that arrives with collections crashes it,
      whoever signed it. */
  method ReceiveCandidate(buffer: BlockBuffer, block: Block, self: Key, timerRunning: bool) returns (ok: bool, forward: bool)
    requires buffer.Valid()
    modifies buffer
    ensures buffer.Valid() && block.collections == old(block.collections)
    ensures var handled := timerRunning && block.hash !in old(buffer.Contents());
            && (ok <==> !handled || block.collections == [])
            && (forward <==> handled && ok)
            && buffer.Contents() == if forward then old(buffer.Contents())[block.hash := [Signer(self)]] else old(buffer.Contents())
  {
    ok, forward := true, false;
    if timerRunning {
      var found := buffer.In(block.hash);
      if !found {
        var copyOk, signBlock := block.Copy();
        if !copyOk {
          return false, false;
        }
        CopyFaithfulIff(block.collections, self);
        var signOk := signBlock.Sign(self);
        if !signOk {
          return false, false;
        }
        FreshSignature(self);
        buffer.Put(signBlock);
        forward := true;
      }
    }
  }
}
