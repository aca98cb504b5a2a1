/** The block store of one node: blocks by hash, a pointer to the latest block and an index
    from heights to hashes. The bucket is modelled as a map; a nil and an empty hash both find
    nothing, and bbolt refuses to store under an empty key. */
module BlockDb {
  import opened Bytes

  datatype Option<+T> = None | Some(value: T)

  /** An ordered candidate block as a head block carries it: the key of its author and the keys
      of its signers. */
  datatype Ordered = Ordered(key: Key, signers: seq<Key>)

  datatype Block = Block(
    index: Uint64,
    version: Uint32,
    timestamp: Uint64,
    prevBlock: Id,
    merkleRoot: Id,
    publicKey: Key,
    ordered: seq<Ordered>,
    hash: Id)

  /** None of the ordered blocks has a signature. */
  predicate Unsigned(b: Block) {
    forall i :: 0 <= i < |b.ordered| ==> b.ordered[i].signers == []
  }

  datatype Db = Db(blocks: map<Id, Block>, latest: Id, index: map<nat, Id>)

  const EMPTY := Db(map[], [], map[])

  function GetByID(db: Db, id: Id): Option<Block> {
    if id != [] && id in db.blocks then Some(db.blocks[id]) else None
  }

  function GetLatest(db: Db): Option<Block> {
    GetByID(db, db.latest)
  }

  function Store(db: Db, b: Block): Db {
    if b.hash == [] then db else db.(blocks := db.blocks[b.hash := b])
  }

  function UpdateLatest(db: Db, b: Block): Db {
    db.(latest := b.hash, index := db.index[b.index := b.hash])
  }

  /** A height without an index entry is an error; an entry may still name a missing block. */
  datatype Lookup = NotIndexed | Indexed(block: Option<Block>)

  function LookupIndex(db: Db, height: nat): Lookup {
    if height in db.index then Indexed(GetByID(db, db.index[height])) else NotIndexed
  }

  /** The two rejections of the block handler: a known hash, or a height with a block. */
  predicate Accepts(db: Db, b: Block) {
    && GetByID(db, b.hash).None?
    && (LookupIndex(db, b.index).NotIndexed? || LookupIndex(db, b.index).block.None?)
  }

  /** What storing a block as the new latest does. */
  function Adopt(db: Db, b: Block): Db {
    UpdateLatest(Store(db, b), b)
  }

  function Gossip(db: Db, b: Block): Db {
    if Accepts(db, b) then Adopt(db, b) else db
  }

  /** Every stored block lies under its own hash, every indexed height names a stored block of
      that height, every stored block's height is indexed, and latest names an indexed block. */
  ghost predicate Coherent(db: Db) {
    && [] !in db.blocks
    && (forall id :: id in db.blocks ==> db.blocks[id].hash == id && db.blocks[id].index in db.index)
    && (forall h :: h in db.index ==> db.index[h] in db.blocks && db.blocks[db.index[h]].index == h)
    && (db.latest == [] <==> db.index == map[])
    && (db.latest != [] ==> db.latest in db.blocks && db.index[db.blocks[db.latest].index] == db.latest)
  }

  /** In any store the handler rejects exactly what it finds: a block stored under the hash, or
      one under the hash indexed at the height. */
  lemma RejectsWhatItFinds(db: Db, b: Block)
    ensures !Accepts(db, b) <==>
            (b.hash != [] && b.hash in db.blocks)
            || (b.index in db.index && db.index[b.index] != [] && db.index[b.index] in db.blocks)
  {
  }

  /** In a coherent store the handler accepts exactly new hashes at heights not yet indexed. */
  lemma AcceptsIff(db: Db, b: Block)
    requires Coherent(db) && b.hash != []
    ensures Accepts(db, b) <==> b.hash !in db.blocks && b.index !in db.index
  {
  }

  /** Gossip keeps the store coherent, never replaces a stored block or an indexed height, and
      makes every accepted block the latest; the one exception is a block with an empty hash,
      which is not stored but still becomes the latest, so that the node has none. */
  lemma GossipKeepsCoherentIff(db: Db, b: Block)
    requires Coherent(db)
    ensures Coherent(Gossip(db, b)) <==> !Accepts(db, b) || b.hash != []
    ensures forall id :: id in db.blocks ==> id in Gossip(db, b).blocks && Gossip(db, b).blocks[id] == db.blocks[id]
    ensures forall h :: h in db.index ==> h in Gossip(db, b).index && Gossip(db, b).index[h] == db.index[h]
    ensures Accepts(db, b) ==> GetLatest(Gossip(db, b)) == if b.hash != [] then Some(b) else None
  {
    var t := Gossip(db, b);
    if Accepts(db, b) {
      assert b.index in t.index && t.index[b.index] == b.hash;
    }
  }

  /** Adopting a block of one's own (genesis or proposal) keeps the store coherent when its
      hash is new and not empty; it replaces an index entry exactly when its height is
      already indexed. */
  lemma AdoptKeepsCoherent(db: Db, b: Block)
    requires Coherent(db) && b.hash != [] && b.hash !in db.blocks
    ensures Coherent(Adopt(db, b)) && GetLatest(Adopt(db, b)) == Some(b)
    ensures (forall h :: h in db.index ==> Adopt(db, b).index[h] == db.index[h]) <==> b.index !in db.index
  {
    var t := Adopt(db, b);
    assert b.index in t.index && t.index[b.index] == b.hash;
    if b.index in db.index {
      assert db.index[b.index] in db.blocks;
    }
  }

  /** Scanning the bucket in some key order, updating latest and the index for every block. */
  function Scan(db: Db, keys: seq<Id>): Db {
    if keys == [] then db
    else
      var t := Scan(db, keys[..|keys| - 1]);
      var k := keys[|keys| - 1];
      if k in db.blocks then UpdateLatest(t, db.blocks[k]) else t
  }

  ghost predicate Enumerates(keys: seq<Id>, db: Db) {
    && (forall k :: k in keys <==> k in db.blocks)
    && (forall i, j :: 0 <= i < j < |keys| ==> keys[i] != keys[j])
  }

  ghost predicate KeyedByHash(db: Db) {
    forall id :: id in db.blocks ==> db.blocks[id].hash == id
  }

  ghost predicate DistinctHeights(db: Db) {
    forall i, j :: i in db.blocks && j in db.blocks && i != j ==> db.blocks[i].index != db.blocks[j].index
  }

  /** Where the last occurrence of a height in the scan points. */
  lemma {:induction false} ScanIndex(db: Db, keys: seq<Id>)
    requires KeyedByHash(db) && (forall k :: k in keys ==> k in db.blocks)
    ensures var t := Scan(db, keys);
            && t.blocks == db.blocks
            && (keys != [] ==> t.latest == keys[|keys| - 1])
            && (forall h :: h in t.index <==> h in db.index || exists k :: k in keys && db.blocks[k].index == h)
            && (forall h :: h in t.index && (exists k :: k in keys && db.blocks[k].index == h) ==> t.index[h] in keys && db.blocks[t.index[h]].index == h)
            && (forall h :: h in db.index && (forall k :: k in keys ==> db.blocks[k].index != h) ==> t.index[h] == db.index[h])
  {
    if keys != [] {
      var front, k := keys[..|keys| - 1], keys[|keys| - 1];
      assert forall x :: x in keys <==> x in front || x == k;
      ScanIndex(db, front);
    }
  }

  /** From an empty index, a store with pairwise distinct heights gets the same index from
      every scan order: each height names its block. Latest is whatever key came last. */
  lemma ScanRebuildsIndex(db: Db, keys: seq<Id>)
    requires KeyedByHash(db) && DistinctHeights(db) && Enumerates(keys, db) && db.index == map[]
    ensures forall h :: h in Scan(db, keys).index <==> exists id :: id in db.blocks && db.blocks[id].index == h
    ensures forall id :: id in db.blocks ==> Scan(db, keys).index[db.blocks[id].index] == id
    ensures keys != [] ==> Scan(db, keys).latest == keys[|keys| - 1]
  {
    ScanIndex(db, keys);
  }

  /** A restart of a coherent store with distinct heights rebuilds its index, and restores the
      latest block exactly when its key is the last one visited. */
  lemma RestartRestoresIff(db: Db, keys: seq<Id>)
    requires Coherent(db) && DistinctHeights(db) && Enumerates(keys, db)
    ensures Scan(Db(db.blocks, [], map[]), keys).index == db.index
    ensures Scan(Db(db.blocks, [], map[]), keys) == db <==> keys == [] || keys[|keys| - 1] == db.latest
  {
    RestartIndex(db, keys);
    var t := Scan(Db(db.blocks, [], map[]), keys);
    assert t.blocks == db.blocks && (keys != [] ==> t.latest == keys[|keys| - 1]) by {
      ScanIndex(Db(db.blocks, [], map[]), keys);
    }
  }

  lemma RestartIndex(db: Db, keys: seq<Id>)
    requires Coherent(db) && DistinctHeights(db) && Enumerates(keys, db)
    ensures Scan(Db(db.blocks, [], map[]), keys).index == db.index
  {
    var t := Scan(Db(db.blocks, [], map[]), keys);
    ScanRebuildsIndex(Db(db.blocks, [], map[]), keys);
    forall h ensures h in t.index <==> h in db.index {
      if h in db.index {
        assert db.index[h] in db.blocks;
      }
    }
    forall h | h in db.index ensures t.index[h] == db.index[h] {
      assert db.blocks[db.index[h]].index == h;
    }
  }

  /** Two blocks at one height are enough for two orders to disagree: the index is the same
      for every order exactly when heights are distinct. */
  lemma ScanOrderMattersIff(db: Db, keys: seq<Id>)
    requires KeyedByHash(db) && Enumerates(keys, db) && db.index == map[]
    ensures DistinctHeights(db) <==> forall other :: Enumerates(other, db) ==> Scan(db, other).index == Scan(db, keys).index
  {
    if DistinctHeights(db) {
      forall other | Enumerates(other, db) ensures Scan(db, other).index == Scan(db, keys).index {
        ScanRebuildsIndex(db, keys);
        ScanRebuildsIndex(db, other);
      }
    } else {
      var i, j :| i in db.blocks && j in db.blocks && i != j && db.blocks[i].index == db.blocks[j].index;
      var a, b := MovedLast(keys, i), MovedLast(keys, j);
      MovedLastEnumerates(keys, i, db);
      MovedLastEnumerates(keys, j, db);
      LastKeyIndexed(db, a);
      LastKeyIndexed(db, b);
      var h := db.blocks[i].index;
      assert Scan(db, a).index[h] == i && Scan(db, b).index[h] == j;
    }
  }

  lemma LastKeyIndexed(db: Db, keys: seq<Id>)
    requires KeyedByHash(db) && keys != [] && keys[|keys| - 1] in db.blocks
    ensures var k := keys[|keys| - 1]; db.blocks[k].index in Scan(db, keys).index && Scan(db, keys).index[db.blocks[k].index] == k
  {
  }

  /** The keys with k moved to the end. */
  function MovedLast(keys: seq<Id>, k: Id): seq<Id> {
    Without(keys, k) + [k]
  }

  function Without(keys: seq<Id>, k: Id): seq<Id> {
    if keys == [] then []
    else if keys[0] == k then Without(keys[1..], k)
    else [keys[0]] + Without(keys[1..], k)
  }

  lemma {:induction false} WithoutMembers(keys: seq<Id>, k: Id)
    ensures forall x :: x in Without(keys, k) <==> x in keys && x != k
    ensures (forall i, j :: 0 <= i < j < |keys| ==> keys[i] != keys[j]) ==>
            forall i, j :: 0 <= i < j < |Without(keys, k)| ==> Without(keys, k)[i] != Without(keys, k)[j]
  {
    if keys != [] {
      WithoutMembers(keys[1..], k);
      assert keys == [keys[0]] + keys[1..];
      if (forall i, j :: 0 <= i < j < |keys| ==> keys[i] != keys[j]) {
        assert forall i, j :: 0 <= i < j < |keys[1..]| ==> keys[1..][i] == keys[i + 1] && keys[1..][j] == keys[j + 1];
        assert keys[0] !in keys[1..];
      }
    }
  }

  lemma MovedLastEnumerates(keys: seq<Id>, k: Id, db: Db)
    requires Enumerates(keys, db) && k in db.blocks
    ensures Enumerates(MovedLast(keys, k), db)
  {
    WithoutMembers(keys, k);
  }

  class BlockDB {
    var blocks: map<Id, Block>
    var latestBlockID: Id
    var blockIndexMap: map<nat, Id>

    constructor ()
      ensures Get() == EMPTY
    {
      blocks, latestBlockID, blockIndexMap := map[], [], map[];
    }

    function Get(): Db
      reads this
    {
      Db(blocks, latestBlockID, blockIndexMap)
    }

    method StoreBlock(block: Block)
      modifies this`blocks
      ensures Get() == Store(old(Get()), block)
      ensures GetByID(Get(), block.hash) == if block.hash != [] then Some(block) else None
    {
      if block.hash != [] {
        blocks := blocks[block.hash := block];
      }
    }

    method SetLatest(block: Block)
      modifies this`latestBlockID, this`blockIndexMap
      ensures Get() == UpdateLatest(old(Get()), block)
      ensures latestBlockID == block.hash && blockIndexMap == old(blockIndexMap)[block.index := block.hash]
    {
      latestBlockID := block.hash;
      blockIndexMap := blockIndexMap[block.index := block.hash];
    }

    method Latest() returns (block: Option<Block>)
      ensures block == GetLatest(Get())
    {
      block := ByID(latestBlockID);
    }

    method ByID(id: Id) returns (block: Option<Block>)
      ensures block == GetByID(Get(), id)
    {
      if id == [] {
        return None;
      }
      block := if id in blocks then Some(blocks[id]) else None;
    }

    method ByIndex(height: Uint64) returns (found: bool, block: Option<Block>)
      ensures found <==> LookupIndex(Get(), height).Indexed?
      ensures block == if found then LookupIndex(Get(), height).block else None
    {
      if height !in blockIndexMap {
        return false, None;
      }
      block := ByID(blockIndexMap[height]);
      found := true;
    }

    /** The bucket is visited in the order of `keys`. */
    method BuildIndex(keys: seq<Id>)
      requires Enumerates(keys, Get())
      modifies this`latestBlockID, this`blockIndexMap
      ensures Get() == Scan(old(Get()), keys)
    {
      ghost var start := Get();
      var i := 0;
      while i < |keys|
        invariant 0 <= i <= |keys| && blocks == start.blocks
        invariant Get() == Scan(start, keys[..i])
      {
        assert keys[..i + 1][..i] == keys[..i];
        assert keys[i] in keys;
        SetLatest(blocks[keys[i]]);
        i := i + 1;
      }
      assert keys[..i] == keys;
    }
  }
}
