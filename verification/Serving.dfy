/** What a node answers to queries by height. */
module Serving {
  import opened Bytes
  import opened BlockDb
  import opened Chain

  /** Looping is the fallback fetching one and the same block for ever. */
  datatype Answer = Inactive | Found(block: Option<BlockDb.Block>) | Looping

  /** One turn of the fallback loop as it is written: it fetches the block's own hash. */
  function Refetch(db: Db, b: BlockDb.Block, turns: nat): Option<BlockDb.Block>
    decreases turns
  {
    if turns == 0 then Some(b)
    else match GetByID(db, b.hash)
      case None => None
      case Some(c) => Refetch(db, c, turns - 1)
  }

  lemma {:induction false} RefetchNeverMoves(db: Db, b: BlockDb.Block, turns: nat)
    requires b.hash != [] && b.hash in db.blocks && db.blocks[b.hash] == b
    ensures Refetch(db, b, turns) == Some(b)
  {
    if turns > 0 {
      RefetchNeverMoves(db, b, turns - 1);
    }
  }

  /** The service's GetBlockByIndex. Stores keep every block under its own hash. */
  method GetBlockByIndex(store: BlockDB, value: Uint64) returns (answer: Answer)
    requires KeyedByHash(store.Get())
    ensures answer == Serve(store.Get(), value)
    ensures answer == Inactive <==> GetLatest(store.Get()).None?
    ensures GetLatest(store.Get()).Some? && GetLatest(store.Get()).value.index <= value ==> answer == Found(GetLatest(store.Get()))
  {
    var latest := store.Latest();
    if latest.None? {
      return Inactive;
    }
    var block := latest.value;
    if block.index > value {
      var found, indexed := store.ByIndex(value);
      if found {
        return Found(indexed);
      }
      var again := store.ByID(block.hash);
      assert again == latest;
      return Looping;
    }
    answer := Found(Some(block));
  }

  function Serve(db: Db, value: nat): Answer {
    match GetLatest(db)
    case None => Inactive
    case Some(latest) =>
      if latest.index <= value then Found(Some(latest))
      else match LookupIndex(db, value)
        case Indexed(b) => Found(b)
        case NotIndexed => Looping
  }

  /** The answer is a block of the height asked for exactly at the latest height, or below it
      when the height is indexed. Above it the latest block is returned whatever was asked,
      even if the height is indexed; below it a height that is not indexed is searched for ever. */
  lemma ServesHeightIff(db: Db, value: nat)
    requires Coherent(db) && db.latest != []
    ensures value in db.index && Serve(db, value) == Found(LookupIndex(db, value).block) <==>
            value == Tip(db).index || (value < Tip(db).index && value in db.index)
    ensures value > Tip(db).index ==> Serve(db, value) == Found(Some(Tip(db)))
    ensures Serve(db, value) == Looping <==> value < Tip(db).index && value !in db.index
    ensures Serve(db, value) == Looping ==> forall turns: nat :: Refetch(db, Tip(db), turns) == Some(Tip(db))
  {
    assert db.index[Tip(db).index] == db.latest;
    if Serve(db, value) == Looping {
      forall turns: nat ensures Refetch(db, Tip(db), turns) == Some(Tip(db)) {
        RefetchNeverMoves(db, Tip(db), turns);
      }
    }
  }

  /** On a linked chain every height up to the tip is served, and the block served is the one
      the walk back from the tip arrives at. */
  lemma ServedIsWalk(db: Db, value: nat)
    requires Linked(db) && value <= Tip(db).index
    ensures Serve(db, value) == Found(WalkBack(db, GetLatest(db), Tip(db).index - value))
    ensures WalkBack(db, GetLatest(db), Tip(db).index - value).value.index == value
  {
    IndexIsWalk(db, Tip(db).index - value);
    assert value in db.index;
    ServesHeightIff(db, value);
  }

  const MAX_BLOCK_PERONCE := 1

  function GenesisID(db: Db): Id {
    if 0 in db.index then db.index[0] else []
  }

  /** How many consecutive heights from `start` on, below `end`, are indexed. */
  function Stretch(db: Db, start: nat, end: nat): nat
    decreases end - start
  {
    if start >= end || start !in db.index then 0 else 1 + Stretch(db, start + 1, end)
  }

  /** Stretch is the number of those heights: all of them are indexed, and they end below `end`
      only before a height that is not. */
  lemma {:induction false} StretchIs(db: Db, start: nat, end: nat)
    ensures var n := Stretch(db, start, end);
            && (forall h :: start <= h < start + n ==> h in db.index)
            && (n > 0 ==> start + n <= end)
            && (start + n < end ==> start + n !in db.index)
    decreases end - start
  {
    if start < end && start in db.index {
      StretchIs(db, start + 1, end);
    }
  }

  /** A foreign chain is refused silently; an empty reply is an error. */
  datatype Reply = Refused | NoValidBlocks | Blocks(blocks: seq<BlockDb.Block>) | Crashed

  /** The height can be put into a reply: its entry names a stored block, and that block can be
      copied once more. */
  predicate Servable(db: Db, height: nat) {
    match LookupIndex(db, height)
    case NotIndexed => false
    case Indexed(None) => false
    case Indexed(Some(b)) => Unsigned(b)
  }

  /** handleDownloadBlockRequest: for a requester of the same chain, the blocks from `start` on,
      with `size` used as an end bound, up to the first height that is not indexed. A height
      that is indexed but cannot be served crashes the node. */
  method DownloadBlocks(store: BlockDB, genesisID: Id, start: Uint64, size: Uint64) returns (reply: Reply)
    ensures var db := store.Get(); var n := Stretch(db, start, size);
            && (reply.Refused? <==> genesisID != GenesisID(db))
            && (reply.Crashed? <==> genesisID == GenesisID(db) && exists h :: start <= h < start + n && !Servable(db, h))
            && (reply.NoValidBlocks? <==> genesisID == GenesisID(db) && n == 0)
            && (reply.Blocks? ==> |reply.blocks| == n && forall i :: 0 <= i < n ==> LookupIndex(db, start + i) == Indexed(Some(reply.blocks[i])))
  {
    var genesis := if 0 in store.blockIndexMap then store.blockIndexMap[0] else [];
    if genesisID != genesis {
      return Refused;
    }
    var blocks: seq<BlockDb.Block> := [];
    var index := start;
    while index < size
      invariant start <= index && |blocks| == index - start
      invariant forall h :: start <= h < index ==> Servable(store.Get(), h)
      invariant Stretch(store.Get(), start, size) == |blocks| + Stretch(store.Get(), index, size)
      invariant forall i :: 0 <= i < |blocks| ==> LookupIndex(store.Get(), start + i) == Indexed(Some(blocks[i]))
      decreases size - index
    {
      var found, block := store.ByIndex(index);
      if !found {
        break;
      }
      var ok := false;
      if block.Some? {
        ok := ReadAndCopy(block.value);
      }
      if !ok {
        assert !Servable(store.Get(), index);
        return Crashed;
      }
      blocks := blocks + [block.value];
      index := index + 1;
    }
    if |blocks| == 0 {
      return NoValidBlocks;
    }
    reply := Blocks(blocks);
  }

  /** On a linked chain the reply holds every height asked for that the chain has. */
  lemma {:induction false} StretchOnChain(db: Db, start: nat, end: nat)
    requires Linked(db)
    ensures Stretch(db, start, end) == Max(0, Min(end, Tip(db).index + 1) - start)
    ensures forall h :: start <= h < start + Stretch(db, start, end) ==> h in db.index && (Servable(db, h) <==> Unsigned(db.blocks[db.index[h]]))
    decreases end - start
  {
    if start < end && start in db.index {
      StretchOnChain(db, start + 1, end);
    }
  }

  function Max(a: int, b: int): int {
    if a >= b then a else b
  }

  /** What a node that is behind asks for: from its own latest height, up to at most one. */
  datatype Request = Request(genesisID: Id, start: nat, size: nat)

  function RequestOf(client: Db, remoteIndex: nat): Request {
    Request(GenesisID(client),
      if GetLatest(client).Some? then GetLatest(client).value.index else 0,
      if remoteIndex < MAX_BLOCK_PERONCE then remoteIndex else MAX_BLOCK_PERONCE)
  }

  /** Synchronising brings nothing new: between any two nodes a request is answered with a
      block exactly when both have the same block at height 0, the other node reports a height
      above 0 and the requester's latest block is at height 0. The answer is then the block at
      height 0 alone, which the requester has. */
  lemma SyncBringsNothingNew(client: Db, server: Db, remoteIndex: nat)
    requires Coherent(client) && Coherent(server)
    ensures var r := RequestOf(client, remoteIndex); var n := Stretch(server, r.start, r.size);
            && (r.genesisID == GenesisID(server) && n > 0 <==>
                  && remoteIndex >= 1 && 0 in server.index && 0 in client.index && client.index[0] == server.index[0]
                  && Tip(client).index == 0)
            && (r.genesisID == GenesisID(server) && n > 0 ==>
                  r.start == 0 && n == 1 && GetByID(client, server.index[0]).Some?)
  {
    var r := RequestOf(client, remoteIndex);
    assert r.size == (if remoteIndex == 0 then 0 else 1);
    assert Stretch(server, 1, 1) == 0;
    if 0 in server.index {
      assert server.index[0] in server.blocks;
    }
    if 0 in client.index {
      assert client.index[0] in client.blocks;
    }
  }

  /** Every block of a reply is at a height at which the node has one. */
  predicate AllHeld(db: Db, blocks: seq<BlockDb.Block>) {
    forall i :: 0 <= i < |blocks| ==> LookupIndex(db, blocks[i].index).Indexed? && LookupIndex(db, blocks[i].index).block.Some?
  }

  /** The greatest height among the node's own blocks there. */
  function TopHeight(db: Db, blocks: seq<BlockDb.Block>): nat
    requires AllHeld(db, blocks)
  {
    if blocks == [] then 0
    else
      var own := LookupIndex(db, blocks[|blocks| - 1].index).block.value.index;
      var rest := TopHeight(db, blocks[..|blocks| - 1]);
      if own > rest then own else rest
  }

  datatype Handled = Ignored | Crash | Done

  /** handleDownloadBlockResponse: looking up its height replaces every block received by the
      node's own, and the greatest height is then used as a position in the reply. So nothing is
      ever stored that was not there, a height without a block crashes the node, and so does a
      reply that does not reach from position 0 to that height; otherwise the block at that
      position becomes the latest, stored or not. */
  method HandleDownloadResponse(store: BlockDB, genesisID: Id, blocks: seq<BlockDb.Block>) returns (outcome: Handled)
    requires KeyedByHash(store.Get())
    modifies store
    ensures var db := old(store.Get());
            && store.Get().blocks == db.blocks
            && (outcome == Ignored <==> genesisID != GenesisID(db))
            && (outcome == Crash <==> genesisID == GenesisID(db) && (!AllHeld(db, blocks) || TopHeight(db, blocks) >= |blocks| > 0))
            && store.Get() == if outcome == Done && TopHeight(db, blocks) > 0 then UpdateLatest(db, blocks[TopHeight(db, blocks)]) else db
  {
    ghost var db := store.Get();
    var genesis := if 0 in store.blockIndexMap then store.blockIndexMap[0] else [];
    if genesisID != genesis {
      return Ignored;
    }
    var index, i := 0, 0;
    while i < |blocks|
      invariant 0 <= i <= |blocks| && store.Get() == db
      invariant AllHeld(db, blocks[..i]) && index == TopHeight(db, blocks[..i])
    {
      assert blocks[..i + 1][..i] == blocks[..i];
      var found, own := store.ByIndex(blocks[i].index);
      if own.None? {
        return Crash;
      }
      if own.value.index > index {
        index := own.value.index;
      }
      store.StoreBlock(own.value);
      assert store.blocks == db.blocks;
      i := i + 1;
    }
    assert blocks[..i] == blocks;
    if index > 0 {
      if index >= |blocks| {
        return Crash;
      }
      store.SetLatest(blocks[index]);
    }
    outcome := Done;
  }

  /** In a coherent store the greatest height is the greatest one in the reply. */
  lemma {:induction false} TopHeightIs(db: Db, blocks: seq<BlockDb.Block>)
    requires Coherent(db) && AllHeld(db, blocks)
    ensures forall i :: 0 <= i < |blocks| ==> blocks[i].index <= TopHeight(db, blocks)
    ensures blocks != [] ==> exists i :: 0 <= i < |blocks| && blocks[i].index == TopHeight(db, blocks)
  {
    if blocks != [] {
      var n := |blocks| - 1;
      TopHeightIs(db, blocks[..n]);
      assert blocks[n].index == LookupIndex(db, blocks[n].index).block.value.index;
      if blocks[n].index < TopHeight(db, blocks[..n]) {
        var i :| 0 <= i < n && blocks[..n][i].index == TopHeight(db, blocks[..n]);
        assert blocks[i].index == TopHeight(db, blocks);
      }
    }
  }

  /** Synchronising from request to response: whatever the requester and the other node have, the
      requester does not crash, and ends with the store it began with. */
  method Synchronise(client: BlockDB, server: BlockDB, remoteIndex: Uint64) returns (reply: Reply, outcome: Handled)
    requires Coherent(client.Get()) && Coherent(server.Get()) && client != server
    modifies client
    ensures client.Get() == old(client.Get()) && server.Get() == old(server.Get())
    ensures outcome == Done <==> reply.Blocks?
    ensures outcome != Crash
  {
    ghost var r := RequestOf(client.Get(), remoteIndex);
    var start: Uint64 := 0;
    var latest := client.Latest();
    if latest.Some? {
      start := latest.value.index;
    }
    var size: Uint64 := MAX_BLOCK_PERONCE;
    if remoteIndex < size {
      size := remoteIndex;
    }
    var genesisID := if 0 in client.blockIndexMap then client.blockIndexMap[0] else [];
    assert r == Request(genesisID, start, size);
    reply := DownloadBlocks(server, genesisID, start, size);
    outcome := Ignored;
    if reply.Blocks? {
      SyncBringsNothingNew(client.Get(), server.Get(), remoteIndex);
      assert LookupIndex(server.Get(), 0) == Indexed(Some(reply.blocks[0])) && reply.blocks[0].index == 0;
      assert AllHeld(client.Get(), reply.blocks);
      TopHeightIs(client.Get(), reply.blocks);
      outcome := HandleDownloadResponse(client, genesisID, reply.blocks);
    }
  }
}
