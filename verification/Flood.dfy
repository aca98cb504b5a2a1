/** Accounting for flooding on a fixed directed graph: nodes 0 .. n-1, each with the list of its
    peers, and for every node the set of items it has. Whatever a node is missing will cost it
    one message to each of its peers once it learns it. */
module Flood {
  type Graph = seq<seq<nat>>

  ghost predicate ValidGraph(peers: Graph) {
    forall u, i :: 0 <= u < |peers| && 0 <= i < |peers[u]| ==> peers[u][i] < |peers|
  }

  /** Number of edges leaving the first n nodes. */
  function EdgesUpTo(peers: Graph, n: nat): nat
    requires n <= |peers|
  {
    if n == 0 then 0 else EdgesUpTo(peers, n - 1) + |peers[n - 1]|
  }

  function Edges(peers: Graph): nat {
    EdgesUpTo(peers, |peers|)
  }

  /** k messages for each of the node's edges. */
  function Times(k: nat, degree: nat): nat {
    if k == 0 then 0 else degree + Times(k - 1, degree)
  }

  lemma {:induction false} TimesIsProduct(k: nat, degree: nat)
    ensures Times(k, degree) == k * degree
  {
    if k > 0 {
      TimesIsProduct(k - 1, degree);
    }
  }

  function DebtUpTo<K(==)>(peers: Graph, known: seq<set<K>>, items: set<K>, n: nat): nat
    requires n <= |peers| == |known|
  {
    if n == 0 then 0 else DebtUpTo(peers, known, items, n - 1) + Times(|items - known[n - 1]|, |peers[n - 1]|)
  }

  /** The messages still owed: one per edge for every item its source does not have yet. */
  function Debt<K(==)>(peers: Graph, known: seq<set<K>>, items: set<K>): nat
    requires |peers| == |known|
  {
    DebtUpTo(peers, known, items, |peers|)
  }

  lemma RemoveOne<K>(s: set<K>, t: set<K>, k: K)
    requires k in s && k !in t
    ensures |s - t| == |s - (t + {k})| + 1
  {
    assert s - t == (s - (t + {k})) + {k};
  }

  lemma AddOne<K>(s: set<K>, t: set<K>, k: K)
    requires k !in s && k !in t
    ensures |(s + {k}) - t| == |s - t| + 1
  {
    assert (s + {k}) - t == (s - t) + {k};
  }

  lemma {:induction false} DebtLocal<K>(peers: Graph, known: seq<set<K>>, items: set<K>, v: nat, s: set<K>, n: nat)
    requires n <= |peers| == |known| && v < |known|
    ensures DebtUpTo(peers, known[v := s], items, n) + (if v < n then Times(|items - known[v]|, |peers[v]|) else 0)
         == DebtUpTo(peers, known, items, n) + (if v < n then Times(|items - s|, |peers[v]|) else 0)
  {
    if n > 0 {
      DebtLocal(peers, known, items, v, s, n - 1);
    }
  }

  /** Learning an item pays the node's messages for it. */
  lemma LearnPays<K>(peers: Graph, known: seq<set<K>>, items: set<K>, v: nat, k: K)
    requires |peers| == |known| && v < |known| && k in items && k !in known[v]
    ensures Debt(peers, known[v := known[v] + {k}], items) + |peers[v]| == Debt(peers, known, items)
  {
    DebtLocal(peers, known, items, v, known[v] + {k}, |peers|);
    RemoveOne(items, known[v], k);
  }

  /** A new item that no node has is owed once on every edge. */
  lemma {:induction false} NewItemOwed<K>(peers: Graph, known: seq<set<K>>, items: set<K>, k: K, n: nat)
    requires n <= |peers| == |known| && k !in items && (forall v :: 0 <= v < |known| ==> k !in known[v])
    ensures DebtUpTo(peers, known, items + {k}, n) == DebtUpTo(peers, known, items, n) + EdgesUpTo(peers, n)
  {
    if n > 0 {
      NewItemOwed(peers, known, items, k, n - 1);
      AddOne(items, known[n - 1], k);
    }
  }

  lemma {:induction false} NothingOwed<K>(peers: Graph, known: seq<set<K>>, items: set<K>, n: nat)
    requires n <= |peers| == |known| && (forall v :: 0 <= v < |known| ==> items <= known[v])
    ensures DebtUpTo(peers, known, items, n) == 0
  {
    if n > 0 {
      NothingOwed(peers, known, items, n - 1);
      assert items - known[n - 1] == {};
    }
  }

  /** A path along edges. */
  ghost predicate Path(peers: Graph, p: seq<nat>) {
    && p != []
    && (forall i :: 0 <= i < |p| ==> p[i] < |peers|)
    && (forall i :: 0 <= i < |p| - 1 ==> p[i + 1] in peers[p[i]])
  }

  /** Every node passes what it has on to its peers. */
  ghost predicate Closed<K>(peers: Graph, known: seq<set<K>>) {
    |known| == |peers| && forall u, v :: 0 <= u < |peers| && 0 <= v < |peers| && v in peers[u] ==> known[u] <= known[v]
  }

  /** Then it reaches everyone along every path. */
  lemma {:induction false} ClosedAlongPath<K>(peers: Graph, known: seq<set<K>>, p: seq<nat>)
    requires Closed(peers, known) && Path(peers, p)
    ensures known[p[0]] <= known[p[|p| - 1]]
  {
    if |p| > 1 {
      var front := p[..|p| - 1];
      ClosedAlongPath(peers, known, front);
      assert p[|p| - 2 + 1] in peers[p[|p| - 2]];
    }
  }

  /** One copy of a message for every peer. */
  function Broadcast<M(==)>(targets: seq<nat>, m: M): multiset<(nat, M)> {
    if targets == [] then multiset{} else Broadcast(targets[..|targets| - 1], m) + multiset{(targets[|targets| - 1], m)}
  }

  lemma {:induction false} BroadcastContents<M>(targets: seq<nat>, m: M)
    ensures |Broadcast(targets, m)| == |targets|
    ensures forall x :: x in Broadcast(targets, m) <==> x.1 == m && x.0 in targets
    ensures forall v :: Broadcast(targets, m)[(v, m)] == multiset(targets)[v]
  {
    if targets != [] {
      var front, last := targets[..|targets| - 1], targets[|targets| - 1];
      BroadcastContents(front, m);
      assert targets == front + [last];
    }
  }

  /** Taking one message out of those in flight and sending others. */
  lemma TakeAndSend<M>(ms: multiset<M>, m: M, sent: multiset<M>)
    requires m in ms
    ensures |ms| > 0 && |ms - multiset{m}| == |ms| - 1
    ensures |ms - multiset{m} + sent| == |ms| - 1 + |sent|
    ensures ms - multiset{m} + sent == ms + sent - multiset{m}
  {
    assert ms == (ms - multiset{m}) + multiset{m};
  }

  lemma BroadcastNext<M>(targets: seq<nat>, m: M, i: nat)
    requires i < |targets|
    ensures Broadcast(targets[..i + 1], m) == Broadcast(targets[..i], m) + multiset{(targets[i], m)}
  {
    assert targets[..i + 1][..i] == targets[..i];
  }

  /** What has been delivered, what is in flight and what is still owed add up to one message
      per edge and item, plus the repeats. */
  ghost predicate Balanced<K>(peers: Graph, known: seq<set<K>>, items: set<K>, inflight: nat, delivered: nat, repeats: nat) {
    && |known| == |peers|
    && delivered + inflight + Debt(peers, known, items) == Times(|items|, Edges(peers)) + repeats
  }

  /** A node that has an item of its own sends it to its peers, whether it is new or not. */
  lemma BalancedSend<K>(peers: Graph, known: seq<set<K>>, items: set<K>, inflight: nat, delivered: nat, repeats: nat, u: nat, k: K)
    requires Balanced(peers, known, items, inflight, delivered, repeats) && u < |peers|
    requires forall v :: 0 <= v < |known| ==> known[v] <= items
    ensures Balanced(peers, known[u := known[u] + {k}], items + {k}, inflight + |peers[u]|, delivered,
                     repeats + if k in known[u] then |peers[u]| else 0)
  {
    if k in known[u] {
      assert known[u] + {k} == known[u] && items + {k} == items;
      assert known[u := known[u]] == known;
    } else if k in items {
      assert items + {k} == items;
      LearnPays(peers, known, items, u, k);
    } else {
      NewItemOwed(peers, known, items, k, |peers|);
      LearnPays(peers, known, items + {k}, u, k);
    }
  }

  /** A delivery of an item the receiver has, and of one it lacks and passes on. */
  lemma BalancedReceive<K>(peers: Graph, known: seq<set<K>>, items: set<K>, inflight: nat, delivered: nat, repeats: nat, v: nat, k: K)
    requires Balanced(peers, known, items, inflight, delivered, repeats) && v < |peers| && inflight > 0 && k in items
    ensures k in known[v] ==> Balanced(peers, known, items, inflight - 1, delivered + 1, repeats)
    ensures k !in known[v] ==> Balanced(peers, known[v := known[v] + {k}], items, inflight - 1 + |peers[v]|, delivered + 1, repeats)
  {
    if k !in known[v] {
      LearnPays(peers, known, items, v, k);
    }
  }
}
