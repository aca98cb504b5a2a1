/** The services of a whole network, as seen by the floods of referer blocks and of addresses:
    each handler is one step of the model, for every node, every message and every state. */
module NodeFloods {
  import opened Bytes
  import opened BlockDb
  import opened Flood
  import opened Node
  import AddressFlood
  import RefererFlood

  type Referer = RefererFlood.Referer

  /** What the nodes remember, and the referer blocks in flight, are those of the model. */
  ghost predicate RefererState(nodes: seq<Service>, net: Network, s: RefererFlood.State, peers: Graph)
    reads net`referers, nodes`deForkBlock
  {
    && Wired(nodes, net, peers) && |s.current| == |nodes| && net.referers == s.inflight
    && forall i :: 0 <= i < |nodes| ==> nodes[i].deForkBlock == s.current[i]
  }

  /** A referer block is handled as the model delivers it; a crash of the delay estimate uses up
      the message and changes nothing else. */
  method DeliverReferer(nodes: seq<Service>, net: Network, v: nat, r: Referer, ghost s: RefererFlood.State, ghost peers: Graph) returns (ok: bool)
    requires RefererState(nodes, net, s, peers) && v < |nodes| && (v, r) in net.referers
    modifies nodes[v], net`referers
    ensures ok <==> (s.current[v].Some? && s.current[v].value.hash == r.hash) || !DeltaCrashes(nodes[v].db.Get())
    ensures RefererState(nodes, net, if ok then RefererFlood.Apply(s, RefererFlood.Deliver(v, r), peers) else s.(inflight := s.inflight - multiset{(v, r)}), peers)
  {
    net.referers := net.referers - multiset{(v, r)};
    ok := nodes[v].HandleReferer(r);
  }

  /** Whether or not a head block is accepted, its handling is the model's Forget step. */
  method HeadForgets(nodes: seq<Service>, net: Network, v: nat, b: Block, ghost s: RefererFlood.State, ghost peers: Graph)
    requires RefererState(nodes, net, s, peers) && v < |nodes|
    modifies nodes[v], nodes[v].db, net`heads
    ensures RefererState(nodes, net, RefererFlood.Apply(s, RefererFlood.Forget(v), peers), peers)
  {
    nodes[v].HandleHeadBlock(b);
  }

  /** A leader that broadcasts a referer block does not remember it. */
  method ProposeReferer(nodes: seq<Service>, net: Network, u: nat, r: Referer, ghost s: RefererFlood.State, ghost peers: Graph)
    requires RefererState(nodes, net, s, peers) && u < |nodes|
    modifies net`referers
    ensures RefererState(nodes, net, RefererFlood.Apply(s, RefererFlood.Propose(u, r), peers), peers)
  {
    nodes[u].BroadcastReferer(r);
  }

  /** The addresses the nodes have, and the messages in flight, are those of the model. */
  ghost predicate AddressState(nodes: seq<Service>, net: Network, s: AddressFlood.State, peers: Graph)
    reads net`addresses, nodes`addressMap
  {
    && Wired(nodes, net, peers) && |s.known| == |nodes| && net.addresses == s.inflight
    && forall i :: 0 <= i < |nodes| ==> nodes[i].addressMap == s.known[i]
  }

  /** A list of addresses is handled as the model delivers it. */
  method DeliverAddresses(nodes: seq<Service>, net: Network, v: nat, l: seq<AddressFlood.Address>, ghost s: AddressFlood.State, ghost peers: Graph)
    requires AddressState(nodes, net, s, peers) && v < |nodes| && (v, l) in net.addresses
    modifies nodes[v], net`addresses
    ensures AddressState(nodes, net, AddressFlood.Apply(s, AddressFlood.Deliver(v, l), peers), peers)
  {
    net.addresses := net.addresses - multiset{(v, l)};
    nodes[v].HandleAddresses(l);
  }

  /** And an operator's list as the model adds it: all of it is sent, known or not. */
  method AddAddresses(nodes: seq<Service>, net: Network, u: nat, l: seq<AddressFlood.Address>, ghost s: AddressFlood.State, ghost peers: Graph)
    requires AddressState(nodes, net, s, peers) && u < |nodes|
    modifies nodes[u], net`addresses
    ensures AddressState(nodes, net, AddressFlood.Apply(s, AddressFlood.Add(u, l), peers), peers)
  {
    nodes[u].AddAddresses(l);
  }
}
