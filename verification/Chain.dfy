/** Proposals, the linked chain they build, and lookup by height. */
module Chain {
  import opened Bytes
  import opened HashBytes
  import opened Wire
  import opened Mining
  import opened BlockDb
  import Signing

  /** Go's copy: as many bytes as both sides have. */
  function CopyInto(dst: seq<Byte>, src: seq<Byte>): (r: seq<Byte>)
    ensures |r| == |dst|
    ensures forall i :: 0 <= i < |r| ==> r[i] == if i < |src| then src[i] else dst[i]
    ensures r == src <==> |dst| == |src|
  {
    var n := Min(|dst|, |src|);
    src[..n] + dst[n..]
  }

  /** The bytes a leader block's hash covers; its own hash and its ordered blocks are not
      among them. */
  function HelloPreimage(b: BlockDb.Block): seq<Byte> {
    ToLittleEndian(b.version, 4) + ToLittleEndian(b.index, 8) + ToLittleEndian(b.timestamp, 8)
    + b.prevBlock + b.merkleRoot + b.publicKey
  }

  /** Blocks with previous hashes and Merkle roots of one length that hash the same bytes
      differ at most in their hash and their ordered blocks. */
  lemma HelloPreimageEqualIff(b: BlockDb.Block, c: BlockDb.Block)
    requires |b.prevBlock| == |c.prevBlock| && |b.merkleRoot| == |c.merkleRoot|
    ensures HelloPreimage(b) == HelloPreimage(c) <==> b.(hash := c.hash, ordered := c.ordered) == c
  {
    WordBack(b.version);
    WordBack(c.version);
    LongBack(b.index);
    LongBack(c.index);
    LongBack(b.timestamp);
    LongBack(c.timestamp);
    PartsEqualIff(ToLittleEndian(b.version, 4), ToLittleEndian(b.index, 8), ToLittleEndian(b.timestamp, 8), b.prevBlock, b.merkleRoot, b.publicKey, [],
                  ToLittleEndian(c.version, 4), ToLittleEndian(c.index, 8), ToLittleEndian(c.timestamp, 8), c.prevBlock, c.merkleRoot, c.publicKey, []);
    assert HelloPreimage(b) + [] == HelloPreimage(b) && HelloPreimage(c) + [] == HelloPreimage(c);
    assert b.publicKey + [] == b.publicKey && c.publicKey + [] == c.publicKey;
  }

  /** The hashed fields at fixed offsets; the lengths of the two hashes are not in the bytes. */
  datatype HelloFields = HelloFields(version: Uint32, index: Uint64, timestamp: Uint64, prevBlock: seq<Byte>, merkleRoot: seq<Byte>, publicKey: seq<Byte>)

  function ParseHello(s: seq<Byte>, prevLength: nat, rootLength: nat): HelloFields
    requires |s| >= 20 + prevLength + rootLength
  {
    LittleEndianFits(s[0..4]);
    LongFits(s[4..12]);
    LongFits(s[12..20]);
    HelloFields(LittleEndian(s[0..4]), LittleEndian(s[4..12]), LittleEndian(s[12..20]),
      s[20..20 + prevLength], s[20 + prevLength..20 + prevLength + rootLength], s[20 + prevLength + rootLength..])
  }

  lemma HelloPartsAt(a: seq<Byte>, b: seq<Byte>, c: seq<Byte>, d: seq<Byte>, e: seq<Byte>, k: seq<Byte>)
    requires |a| == 4 && |b| == |c| == 8
    ensures var s := a + b + c + d + e + k;
            && s[0..4] == a && s[4..12] == b && s[12..20] == c
            && s[20..20 + |d|] == d && s[20 + |d|..20 + |d| + |e|] == e && s[20 + |d| + |e|..] == k
  {
  }

  /** Version, height, time, previous hash, Merkle root and key lie in this order. */
  lemma HelloRoundTrip(b: BlockDb.Block)
    ensures |HelloPreimage(b)| == 20 + |b.prevBlock| + |b.merkleRoot| + |b.publicKey|
    ensures ParseHello(HelloPreimage(b), |b.prevBlock|, |b.merkleRoot|) ==
            HelloFields(b.version, b.index, b.timestamp, b.prevBlock, b.merkleRoot, b.publicKey)
  {
    WordBack(b.version);
    LongBack(b.index);
    LongBack(b.timestamp);
    HelloPartsAt(ToLittleEndian(b.version, 4), ToLittleEndian(b.index, 8), ToLittleEndian(b.timestamp, 8), b.prevBlock, b.merkleRoot, b.publicKey);
  }

  /** The block a leader builds on `latest`. */
  function Proposal(latest: BlockDb.Block, now: Uint64, key: Key, ordered: seq<Ordered>, sha: Sha256): BlockDb.Block {
    var b := latest.(
      index := (latest.index + 1) % 0x1_0000_0000_0000_0000,
      timestamp := now,
      prevBlock := CopyInto(latest.prevBlock, latest.hash),
      publicKey := key,
      ordered := ordered);
    b.(hash := CopyInto(latest.hash, sha(HelloPreimage(b))))
  }

  /** Copying in place links the proposal exactly when the previous-hash field already has the
      hash's length, and stores the whole digest exactly when the hash field has 32 bytes; both
      lengths are inherited, so the genesis block decides for the whole chain. */
  lemma ProposalLinkedIff(latest: BlockDb.Block, now: Uint64, key: Key, ordered: seq<Ordered>, sha: Sha256)
    ensures var b := Proposal(latest, now, key, ordered, sha);
            && (b.prevBlock == latest.hash <==> |latest.prevBlock| == |latest.hash|)
            && (b.hash == sha(HelloPreimage(b)) <==> |latest.hash| == HASH_SIZE)
            && |b.prevBlock| == |latest.prevBlock| && |b.hash| == |latest.hash|
            && (b.index == latest.index + 1 <==> latest.index != 0xffff_ffff_ffff_ffff)
  {
    var b := Proposal(latest, now, key, ordered, sha);
    assert HelloPreimage(b) == HelloPreimage(b.(hash := []));
    assert HelloPreimage(b.(hash := latest.hash)) == HelloPreimage(b.(hash := []));
  }

  /** Proposals on one block at different times, or by different leaders, hash different bytes. */
  lemma ProposalsDiffer(latest: BlockDb.Block, now: Uint64, key: Key, ordered: seq<Ordered>, now': Uint64, key': Key, ordered': seq<Ordered>, sha: Sha256)
    ensures HelloPreimage(Proposal(latest, now, key, ordered, sha)) == HelloPreimage(Proposal(latest, now', key', ordered', sha)) <==>
            now == now' && key == key'
  {
    var b, c := Proposal(latest, now, key, ordered, sha), Proposal(latest, now', key', ordered', sha);
    HelloPreimageEqualIff(b, c);
    assert b.timestamp == now && c.timestamp == now' && b.publicKey == key && c.publicKey == key';
  }

  /** An ordered block in memory, with its collections as pointers, and as it is stored. */
  datatype Loaded = Loaded(key: Key, collections: seq<Signing.Collection>)

  function Load(os: seq<Ordered>): seq<Loaded> {
    seq(|os|, i requires 0 <= i < |os| => Loaded(os[i].key, Signing.FromSigners(os[i].signers)))
  }

  function Stored(ls: seq<Loaded>): seq<Ordered> {
    seq(|ls|, i requires 0 <= i < |ls| => Ordered(ls[i].key, Signing.Signers(ls[i].collections)))
  }

  function Copied(ls: seq<Loaded>): seq<Loaded> {
    seq(|ls|, i requires 0 <= i < |ls| => Loaded(ls[i].key, Signing.CopyCollections(ls[i].collections)))
  }

  predicate Copyable(ls: seq<Loaded>) {
    forall i :: 0 <= i < |ls| ==> Signing.NoNil(ls[i].collections)
  }

  lemma StoredOfLoad(os: seq<Ordered>)
    ensures Stored(Load(os)) == os && Copyable(Load(os))
  {
    forall i | 0 <= i < |os| ensures Stored(Load(os))[i] == os[i] {
      Signing.SignersBack(os[i].signers);
    }
  }

  lemma StoredOfCopied(ls: seq<Loaded>)
    ensures Stored(Copied(ls)) == Stored(ls)
  {
    forall i | 0 <= i < |ls| ensures Stored(Copied(ls))[i] == Stored(ls)[i] {
      Signing.SignersOfCopy(ls[i].collections, |ls[i].collections|);
    }
  }

  /** The store copies every block it reads. That copy of a head block can be copied again
      exactly when none of its ordered blocks is signed; otherwise it meets a nil entry. */
  lemma ReadCopyableIff(b: BlockDb.Block)
    ensures Copyable(Copied(Load(b.ordered))) <==> Unsigned(b)
  {
    var ls := Copied(Load(b.ordered));
    forall i | 0 <= i < |b.ordered| ensures Signing.NoNil(ls[i].collections) <==> b.ordered[i].signers == [] {
      Signing.CopiedAgainIff(b.ordered[i].signers);
    }
  }

  method CopyOrdered(ls: seq<Loaded>) returns (ok: bool, copied: seq<Loaded>)
    ensures ok <==> Copyable(ls)
    ensures ok ==> copied == Copied(ls)
  {
    copied := [];
    var i := 0;
    while i < |ls|
      invariant 0 <= i <= |ls| && Copyable(ls[..i])
      invariant copied == Copied(ls[..i])
    {
      var one, cs := Signing.CopyEntries(ls[i].collections);
      if !one {
        return false, copied;
      }
      copied := copied + [Loaded(ls[i].key, cs)];
      i := i + 1;
    }
    assert ls[..i] == ls;
    ok := true;
  }

  /** A leader block in memory: the byte fields are slices that share their arrays with whoever
      holds them. */
  class HelloBlock {
    var index: Uint64
    const version: Uint32
    var timestamp: Uint64
    const prevBlock: array<Byte>
    const merkleRoot: array<Byte>
    var publicKey: Key
    var ordered: seq<Loaded>
    const hash: array<Byte>

    constructor (index: Uint64, version: Uint32, timestamp: Uint64, prevBlock: array<Byte>, merkleRoot: array<Byte>,
                 publicKey: Key, ordered: seq<Loaded>, hash: array<Byte>)
      ensures this.prevBlock == prevBlock && this.merkleRoot == merkleRoot && this.hash == hash
      ensures this.index == index && this.version == version && this.timestamp == timestamp
      ensures this.publicKey == publicKey && this.ordered == ordered
    {
      this.index, this.version, this.timestamp := index, version, timestamp;
      this.publicKey, this.ordered := publicKey, ordered;
      this.prevBlock, this.merkleRoot, this.hash := prevBlock, merkleRoot, hash;
    }

    /** The block as it would be stored; nil collections are not. */
    function Get(): BlockDb.Block
      reads this, prevBlock, merkleRoot, hash
    {
      BlockDb.Block(index, version, timestamp, prevBlock[..], merkleRoot[..], publicKey, Stored(ordered), hash[..])
    }

    /** Every array of the copy is new, and they are three different arrays. The ordered blocks
        get nil entries in front of their signatures; where there are some already, copying
        crashes, which is reported as null. */
    method Copy() returns (c: HelloBlock?)
      ensures c == null <==> !Copyable(ordered)
      ensures c != null ==> c.Get() == Get() && c.ordered == Copied(ordered)
      ensures c != null ==> fresh(c) && fresh(c.prevBlock) && fresh(c.merkleRoot) && fresh(c.hash)
      ensures c != null ==> c.prevBlock != c.hash && c.prevBlock != c.merkleRoot && c.hash != c.merkleRoot
    {
      var p := CopyBytes(prevBlock);
      var m := CopyBytes(merkleRoot);
      var h := CopyBytes(hash);
      var ok, os := CopyOrdered(ordered);
      if !ok {
        return null;
      }
      StoredOfCopied(ordered);
      c := new HelloBlock(index, version, timestamp, p, m, publicKey, os, h);
    }

    method CalculateHash(sha: Sha256) returns (digest: Wire.Hash)
      ensures digest == sha(HelloPreimage(Get()))
    {
      var state: seq<Byte> := ToLittleEndian(version, 4);
      state := state + ToLittleEndian(index, 8);
      state := state + ToLittleEndian(timestamp, 8);
      state := state + prevBlock[..];
      state := state + merkleRoot[..];
      state := state + publicKey;
      digest := sha(state);
    }
  }

  method CopyBytes(a: array<Byte>) returns (c: array<Byte>)
    ensures fresh(c) && c[..] == a[..]
  {
    c := new Byte[a.Length](_ => 0);
    CopySlice(c, a[..]);
  }

  method CopySlice(dst: array<Byte>, src: seq<Byte>)
    modifies dst
    ensures dst[..] == CopyInto(old(dst[..]), src)
  {
    var n := Min(dst.Length, |src|);
    var i := 0;
    while i < n
      invariant 0 <= i <= n
      invariant forall k :: 0 <= k < i ==> dst[k] == src[k]
      invariant forall k :: i <= k < dst.Length ==> dst[k] == old(dst[k])
    {
      dst[i] := src[i];
      i := i + 1;
    }
    assert dst[..] == src[..n] + old(dst[..])[n..];
  }

  method FromBytes(s: seq<Byte>) returns (a: array<Byte>)
    ensures fresh(a) && a[..] == s
  {
    a := new Byte[|s|](i requires 0 <= i < |s| => s[i]);
  }

  /** A block read from the store: unmarshalled into arrays of its own, and copied once. */
  method Read(b: BlockDb.Block) returns (h: HelloBlock)
    ensures h.Get() == b && h.ordered == Copied(Load(b.ordered))
    ensures fresh(h) && fresh(h.prevBlock) && fresh(h.merkleRoot) && fresh(h.hash)
  {
    var p := FromBytes(b.prevBlock);
    var m := FromBytes(b.merkleRoot);
    var hash := FromBytes(b.hash);
    StoredOfLoad(b.ordered);
    var unmarshalled := new HelloBlock(b.index, b.version, b.timestamp, p, m, b.publicKey, Load(b.ordered), hash);
    h := unmarshalled.Copy();
  }

  /** Reading a block from the store and copying it. */
  method ReadAndCopy(b: BlockDb.Block) returns (ok: bool)
    ensures ok <==> Unsigned(b)
  {
    var read := Read(b);
    ReadCopyableIff(b);
    var copied := read.Copy();
    ok := copied != null;
  }

  /** The proposal is built on a copy: the latest block is not in the frame, so none of its
      bytes change, although the previous hash and then the hash are overwritten in place.
      Null is the crash of copying a block with nil collections. */
  method BuildProposal(latest: HelloBlock, now: Uint64, key: Key, ordered: seq<Ordered>, sha: Sha256) returns (b: HelloBlock?)
    ensures b == null <==> !Copyable(latest.ordered)
    ensures b != null ==> b.Get() == Proposal(latest.Get(), now, key, ordered, sha)
    ensures b != null ==>
            && b.timestamp == now && b.publicKey == key && Stored(b.ordered) == ordered
            && b.version == latest.version && b.merkleRoot[..] == latest.merkleRoot[..]
            && b.index == (latest.index + 1) % 0x1_0000_0000_0000_0000
            && b.prevBlock[..] == CopyInto(latest.prevBlock[..], latest.hash[..])
            && b.hash[..] == CopyInto(latest.hash[..], sha(HelloPreimage(b.Get())))
    ensures latest.Get() == old(latest.Get())
    ensures b != null ==> fresh(b) && fresh(b.prevBlock) && fresh(b.hash)
  {
    b := latest.Copy();
    if b == null {
      return;
    }
    b.index := (b.index + 1) % 0x1_0000_0000_0000_0000;
    b.timestamp := now;
    CopySlice(b.prevBlock, b.hash[..]);
    b.publicKey := key;
    b.ordered := Load(ordered);
    StoredOfLoad(ordered);
    ghost var before := b.Get();
    var digest := b.CalculateHash(sha);
    CopySlice(b.hash, digest);
    assert before == Proposal(latest.Get(), now, key, ordered, sha).(hash := before.hash);
    assert HelloPreimage(before) == HelloPreimage(before.(hash := []));
  }

  /** All heights up to the tip are indexed, each block's previous hash is the hash indexed one
      height below, hashes have full length, and the root's previous hash is not stored. */
  ghost predicate Linked(db: Db) {
    && Coherent(db) && db.latest != []
    && (forall h :: h in db.index <==> 0 <= h <= Tip(db).index)
    && (forall h :: 0 < h <= Tip(db).index ==> db.blocks[db.index[h]].prevBlock == db.index[h - 1])
    && (forall id :: id in db.blocks ==> FullLength(db.blocks[id]))
    && db.blocks[db.index[0]].prevBlock !in db.blocks
  }

  ghost predicate FullLength(b: BlockDb.Block) {
    |b.hash| == HASH_SIZE && |b.prevBlock| == HASH_SIZE
  }

  ghost function Tip(db: Db): BlockDb.Block
    requires Coherent(db) && db.latest != []
  {
    db.blocks[db.latest]
  }

  /** The hash is one no stored block has or names as the root's predecessor. */
  ghost predicate FreshHash(db: Db, hash: Id)
    requires Linked(db)
  {
    hash !in db.blocks && hash != db.blocks[db.index[0]].prevBlock
  }

  lemma GenesisLinked(g: BlockDb.Block)
    requires g.index == 0 && FullLength(g) && g.prevBlock != g.hash
    ensures Linked(Adopt(EMPTY, g)) && Tip(Adopt(EMPTY, g)) == g
  {
  }

  lemma ExtendsTip(db: Db, b: BlockDb.Block)
    requires Linked(db) && FullLength(b) && FreshHash(db, b.hash)
    requires b.index == Tip(db).index + 1 && b.prevBlock == db.latest
    ensures Linked(Adopt(db, b)) && Tip(Adopt(db, b)) == b
  {
    var t := Adopt(db, b);
    AdoptKeepsCoherent(db, b);
    assert Tip(t) == b;
    HeightsExtended(db, b);
    forall h | 0 < h <= b.index ensures t.blocks[t.index[h]].prevBlock == t.index[h - 1] {
      LinkKept(db, b, h);
    }
  }

  lemma HeightsExtended(db: Db, b: BlockDb.Block)
    requires Linked(db) && FullLength(b) && FreshHash(db, b.hash)
    requires b.index == Tip(db).index + 1
    ensures var t := Adopt(db, b);
            && (forall h :: h in t.index <==> 0 <= h <= b.index)
            && (forall id :: id in t.blocks ==> FullLength(t.blocks[id]))
            && t.index[0] == db.index[0] && t.blocks[t.index[0]] == db.blocks[db.index[0]]
            && db.blocks[db.index[0]].prevBlock !in t.blocks
  {
    assert 0 in db.index;
  }

  lemma LinkKept(db: Db, b: BlockDb.Block, h: nat)
    requires Linked(db) && b.hash !in db.blocks && b.hash != []
    requires b.index == Tip(db).index + 1 && b.prevBlock == db.latest
    requires 0 < h <= b.index
    ensures var t := Adopt(db, b);
            h in t.index && h - 1 in t.index && t.index[h] in t.blocks && t.blocks[t.index[h]].prevBlock == t.index[h - 1]
  {
    assert h - 1 in db.index && b.index !in db.index;
    if h < b.index {
      assert h in db.index;
    }
  }

  /** A gossiped block of full length keeps the chain linked exactly when it is rejected or
      extends the tip; a block further ahead, or with another predecessor, is accepted all the
      same and breaks the chain. */
  lemma GossipKeepsLinkedIff(db: Db, b: BlockDb.Block)
    requires Linked(db) && FullLength(b) && b.hash != db.blocks[db.index[0]].prevBlock
    ensures Linked(Gossip(db, b)) <==> !Accepts(db, b) || (b.index == Tip(db).index + 1 && b.prevBlock == db.latest)
  {
    AcceptsIff(db, b);
    if Accepts(db, b) {
      if b.index == Tip(db).index + 1 && b.prevBlock == db.latest {
        ExtendsTip(db, b);
      } else {
        var t := Gossip(db, b);
        GossipKeepsCoherentIff(db, b);
        assert Tip(t) == b && b.index > Tip(db).index by {
          assert b.index !in db.index;
        }
        if b.index == Tip(db).index + 1 {
          assert t.index[b.index - 1] == db.latest && t.blocks[t.index[b.index]] == b;
        } else {
          assert Tip(db).index + 1 !in t.index;
        }
      }
    }
  }

  /** A leader reads its latest block, waits, and only then builds on it. If the chain grew in
      the meantime, its proposal keeps the chain linked exactly when it grew by at most one
      block, which the proposal then replaces in the index; otherwise latest falls back. */
  lemma StaleProposalLinkedIff(db: Db, base: BlockDb.Block, now: Uint64, key: Key, ordered: seq<Ordered>, sha: Sha256)
    requires Linked(db) && GetByID(db, base.hash) == Some(base) && db.index[base.index] == base.hash
    requires base.index < 0xffff_ffff_ffff_ffff && FreshHash(db, Proposal(base, now, key, ordered, sha).hash)
    ensures var t := Adopt(db, Proposal(base, now, key, ordered, sha));
            && (Linked(t) <==> base.index + 1 >= Tip(db).index)
            && GetLatest(t).Some? && GetLatest(t).value.index == base.index + 1
  {
    var b := Proposal(base, now, key, ordered, sha);
    ProposalLinkedIff(base, now, key, ordered, sha);
    assert FullLength(base) && FullLength(b);
    AdoptKeepsCoherent(db, b);
    var t := Adopt(db, b);
    assert base.index in db.index && base.index <= Tip(db).index;
    if base.index == Tip(db).index {
      assert db.index[Tip(db).index] == db.latest;
      ExtendsTip(db, b);
    } else if base.index + 1 == Tip(db).index {
      ReplacesTip(db, b);
    } else {
      assert Tip(t) == b && Tip(db).index in t.index;
    }
  }

  lemma ReplacesTip(db: Db, b: BlockDb.Block)
    requires Linked(db) && FullLength(b) && FreshHash(db, b.hash)
    requires 0 < b.index == Tip(db).index && b.prevBlock == db.index[b.index - 1]
    ensures Linked(Adopt(db, b))
  {
    var t := Adopt(db, b);
    AdoptKeepsCoherent(db, b);
    assert Tip(t) == b && 0 in db.index && b.index in db.index;
    forall h | 0 < h <= b.index ensures t.blocks[t.index[h]].prevBlock == t.index[h - 1] {
      assert h in db.index && h - 1 in db.index;
    }
  }

  /** What can happen to one node's chain. */
  datatype Event =
    | Genesis(block: BlockDb.Block)
    | Propose(now: Uint64, key: Key, ordered: seq<Ordered>)
    | Deliver(block: BlockDb.Block)

  /** Genesis only on a store without a latest block. A proposal needs one that can be copied;
      otherwise the node crashes and stores nothing. */
  function Apply(db: Db, e: Event, sha: Sha256): Db {
    match e
    case Genesis(g) => if GetLatest(db).Some? then db else Adopt(db, g)
    case Propose(now, key, ordered) =>
      if GetLatest(db).None? || !Unsigned(GetLatest(db).value) then db else Adopt(db, Proposal(GetLatest(db).value, now, key, ordered, sha))
    case Deliver(b) => Gossip(db, b)
  }

  /** The runs considered: the genesis block has a previous hash of full length that is not its
      own hash, digests of proposals are fresh, heights stay below 2^64, and delivered blocks
      that the store accepts come in order. */
  ghost predicate InOrder(db: Db, e: Event, sha: Sha256) {
    match e
    case Genesis(g) => g.index == 0 && FullLength(g) && g.prevBlock != g.hash
    case Propose(now, key, ordered) =>
      Linked(db) ==> Tip(db).index < 0xffff_ffff_ffff_ffff && FreshHash(db, Proposal(Tip(db), now, key, ordered, sha).hash)
    case Deliver(b) =>
      && FullLength(b)
      && (Linked(db) ==> b.hash != db.blocks[db.index[0]].prevBlock && (Accepts(db, b) ==> b.index == Tip(db).index + 1 && b.prevBlock == db.latest))
      && (db == EMPTY ==> b.index == 0 && b.prevBlock != b.hash)
  }

  function Run(events: seq<Event>, sha: Sha256): Db {
    if events == [] then EMPTY else Apply(Run(events[..|events| - 1], sha), events[|events| - 1], sha)
  }

  ghost predicate RunInOrder(events: seq<Event>, sha: Sha256) {
    events == [] || (RunInOrder(events[..|events| - 1], sha) && InOrder(Run(events[..|events| - 1], sha), events[|events| - 1], sha))
  }

  /** One event keeps the chain linked, and leaves it alone or adds exactly the next height. */
  lemma EventKeepsLinked(db: Db, e: Event, sha: Sha256)
    requires Linked(db) && InOrder(db, e, sha)
    ensures Linked(Apply(db, e, sha))
    ensures Apply(db, e, sha) == db || Tip(Apply(db, e, sha)).index == Tip(db).index + 1
    ensures Apply(db, e, sha) != db ==> Tip(Apply(db, e, sha)).prevBlock == db.latest
    ensures e.Propose? && Unsigned(Tip(db)) ==> Tip(Apply(db, e, sha)) == Proposal(Tip(db), e.now, e.key, e.ordered, sha)
    ensures e.Propose? && !Unsigned(Tip(db)) ==> Apply(db, e, sha) == db
  {
    match e
    case Genesis(_) =>
    case Propose(now, key, ordered) =>
      var b := Proposal(Tip(db), now, key, ordered, sha);
      ProposalLinkedIff(Tip(db), now, key, ordered, sha);
      assert FullLength(Tip(db)) && FullLength(b);
      if Unsigned(Tip(db)) {
        ExtendsTip(db, b);
      }
    case Deliver(b) =>
      GossipKeepsLinkedIff(db, b);
      if Accepts(db, b) {
        assert Tip(Gossip(db, b)) == b;
      }
  }

  lemma FirstEventLinks(e: Event, sha: Sha256)
    requires InOrder(EMPTY, e, sha)
    ensures Apply(EMPTY, e, sha) == EMPTY || Linked(Apply(EMPTY, e, sha))
  {
    match e
    case Genesis(g) => GenesisLinked(g);
    case Propose(_, _, _) =>
    case Deliver(b) => GenesisLinked(b);
  }

  /** Every such run has an empty store or a linked chain. */
  lemma {:induction false} RunsAreLinked(events: seq<Event>, sha: Sha256)
    requires RunInOrder(events, sha)
    ensures Run(events, sha) == EMPTY || Linked(Run(events, sha))
  {
    if events != [] {
      var front, e := events[..|events| - 1], events[|events| - 1];
      RunsAreLinked(front, sha);
      if Run(front, sha) == EMPTY {
        FirstEventLinks(e, sha);
      } else {
        EventKeepsLinked(Run(front, sha), e, sha);
      }
    }
  }

  /** Following the previous hash n times. */
  function WalkBack(db: Db, b: Option<BlockDb.Block>, n: nat): Option<BlockDb.Block>
    decreases n
  {
    if n == 0 || b.None? then b else WalkBack(db, GetByID(db, b.value.prevBlock), n - 1)
  }

  lemma {:induction false} WalkFromHeight(db: Db, h: nat, n: nat)
    requires Linked(db) && h <= Tip(db).index
    ensures WalkBack(db, GetByID(db, db.index[h]), n) == if n <= h then GetByID(db, db.index[h - n]) else None
    decreases n
  {
    if n > 0 {
      assert h in db.index;
      if h > 0 {
        WalkFromHeight(db, h - 1, n - 1);
      } else {
        WalkNone(db, n - 1);
      }
    }
  }

  lemma WalkNone(db: Db, n: nat)
    ensures WalkBack(db, None, n) == None
  {
  }

  /** The index and the chain agree: looking a height up is walking back from the tip by the
      difference, each step going down one height, and below height 0 the walk ends. */
  lemma IndexIsWalk(db: Db, n: nat)
    requires Linked(db)
    ensures n <= Tip(db).index ==>
            && LookupIndex(db, Tip(db).index - n) == Indexed(WalkBack(db, GetLatest(db), n))
            && WalkBack(db, GetLatest(db), n).Some? && WalkBack(db, GetLatest(db), n).value.index == Tip(db).index - n
    ensures n > Tip(db).index ==> WalkBack(db, GetLatest(db), n).None?
  {
    assert db.index[Tip(db).index] == db.latest;
    WalkFromHeight(db, Tip(db).index, n);
    if n <= Tip(db).index {
      assert Tip(db).index - n in db.index;
    }
  }
}
