/** Signatures collected on candidate blocks, and the buffer that selects blocks by how many
    they have. Collections are pointers in the source, so an entry can be nil; reading the key
    of a nil entry crashes, which the model reports as an outcome. */
module Signing {
  import opened Bytes

  datatype Collection = Nil | Signer(key: Key)

  datatype Scan = Missing | Found | Crash

  /** How Sign's search for `key` ends: it stops at the first entry that is nil or matches. */
  function Search(cs: seq<Collection>, key: Key): Scan {
    if cs == [] then Missing
    else if cs[0].Nil? then Crash
    else if cs[0].key == key then Found
    else Search(cs[1..], key)
  }

  /** The search ends at the first entry that is nil, a crash, or has the key, a find; without
      such an entry it misses. */
  lemma {:induction false} SearchEnds(cs: seq<Collection>, key: Key) returns (i: nat)
    ensures i <= |cs| && Passed(cs[..i], key)
    ensures Search(cs, key) == Missing <==> i == |cs|
    ensures Search(cs, key) == Missing <==> Passed(cs, key)
    ensures i < |cs| ==> cs[i] == match Search(cs, key) case Crash => Nil case _ => Signer(key)
  {
    if cs != [] && cs[0].Signer? && cs[0].key != key {
      var j := SearchEnds(cs[1..], key);
      i := j + 1;
      assert cs[..i] == [cs[0]] + cs[1..][..j];
      assert cs == [cs[0]] + cs[1..];
    } else {
      i := 0;
      assert cs != [] ==> cs[0] in cs;
    }
  }

  /** Only signers with other keys. */
  ghost predicate Passed(cs: seq<Collection>, key: Key) {
    forall c :: c in cs ==> c.Signer? && c.key != key
  }

  function Signed(cs: seq<Collection>, key: Key): seq<Collection> {
    if Search(cs, key).Missing? then cs + [Signer(key)] else cs
  }

  /** Copy allocates one nil entry for every collection and appends the copies after them. */
  function CopyCollections(cs: seq<Collection>): seq<Collection> {
    seq(|cs|, _ => Nil) + cs
  }

  predicate NoNil(cs: seq<Collection>) {
    forall i :: 0 <= i < |cs| ==> cs[i].Signer?
  }

  /** The copying loop, which reads the key of every entry and so crashes on a nil one. */
  method CopyEntries(cs: seq<Collection>) returns (ok: bool, copied: seq<Collection>)
    ensures ok <==> NoNil(cs)
    ensures ok ==> copied == CopyCollections(cs)
  {
    copied := seq(|cs|, _ => Nil);
    var i := 0;
    while i < |cs|
      invariant 0 <= i <= |cs| && NoNil(cs[..i])
      invariant copied == seq(|cs|, _ => Nil) + cs[..i]
    {
      if cs[i].Nil? {
        return false, copied;
      }
      copied := copied + [Signer(cs[i].key)];
      i := i + 1;
    }
    assert cs[..i] == cs;
    ok := true;
  }

  /** The keys of the entries that are not nil, in order. */
  function Signers(cs: seq<Collection>): seq<Key> {
    if cs == [] then []
    else Signers(cs[..|cs| - 1]) + if cs[|cs| - 1].Signer? then [cs[|cs| - 1].key] else []
  }

  function FromSigners(keys: seq<Key>): (cs: seq<Collection>)
    ensures NoNil(cs) && |cs| == |keys|
  {
    seq(|keys|, i requires 0 <= i < |keys| => Signer(keys[i]))
  }

  lemma {:induction false} SignersBack(keys: seq<Key>)
    ensures Signers(FromSigners(keys)) == keys
  {
    if keys != [] {
      var n := |keys| - 1;
      SignersBack(keys[..n]);
      assert FromSigners(keys)[..n] == FromSigners(keys[..n]);
    }
  }

  /** A copy has the signers of its block. */
  lemma {:induction false} SignersOfCopy(cs: seq<Collection>, nils: nat)
    ensures Signers(seq(nils, _ => Nil) + cs) == Signers(cs)
    decreases nils + |cs|
  {
    var all := seq(nils, _ => Nil) + cs;
    if cs != [] {
      SignersOfCopy(cs[..|cs| - 1], nils);
      assert all[..|all| - 1] == seq(nils, _ => Nil) + cs[..|cs| - 1];
    } else if nils > 0 {
      SignersOfCopy(cs, nils - 1);
      assert all[..|all| - 1] == seq(nils - 1, _ => Nil) + cs;
    }
  }

  /** A block with these signers can be copied once, and its copy again exactly when there are
      none. */
  lemma CopiedAgainIff(keys: seq<Key>)
    ensures NoNil(FromSigners(keys))
    ensures NoNil(CopyCollections(FromSigners(keys))) <==> keys == []
  {
    if keys != [] {
      assert CopyCollections(FromSigners(keys))[0] == Nil;
    }
  }

  /** Every entry is a signer and no key occurs twice. */
  ghost predicate DistinctSigners(cs: seq<Collection>) {
    && NoNil(cs)
    && (forall i, j :: 0 <= i < j < |cs| ==> cs[i] != cs[j])
  }

  ghost function Keys(cs: seq<Collection>): set<Key> {
    set c | c in cs && c.Signer? :: c.key
  }

  lemma {:induction false} SearchFinds(cs: seq<Collection>, key: Key)
    requires NoNil(cs)
    ensures Search(cs, key) == if Signer(key) in cs then Found else Missing
  {
    if cs != [] {
      SearchFinds(cs[1..], key);
      assert cs == [cs[0]] + cs[1..];
    }
  }

  /** Signing keeps signers distinct, removes none, adds exactly the key, and never crashes. */
  lemma SignKeepsDistinct(cs: seq<Collection>, key: Key)
    requires DistinctSigners(cs)
    ensures Search(cs, key) != Crash
    ensures DistinctSigners(Signed(cs, key)) && cs <= Signed(cs, key)
    ensures Keys(Signed(cs, key)) == Keys(cs) + {key}
    ensures Signed(Signed(cs, key), key) == Signed(cs, key)
  {
    SearchFinds(cs, key);
    SearchFinds(Signed(cs, key), key);
    assert Signer(key) in Signed(cs, key);
    assert forall c :: c in Signed(cs, key) <==> c in cs || c == Signer(key);
  }

  /** With distinct signers the entries counted are exactly the keys. */
  lemma {:induction false} CountIsKeys(cs: seq<Collection>)
    requires DistinctSigners(cs)
    ensures |Keys(cs)| == |cs|
  {
    if cs == [] {
      assert Keys(cs) == {};
    } else {
      var rest, last := cs[..|cs| - 1], cs[|cs| - 1];
      CountIsKeys(rest);
      assert cs == rest + [last];
      assert Keys(cs) == Keys(rest) + {last.key};
      assert last.key !in Keys(rest);
    }
  }

  /** A copy has one nil entry for every entry of its block and then those entries. So it is the
      block, and can be signed, only when there were none. */
  lemma CopyFaithfulIff(cs: seq<Collection>, key: Key)
    ensures |CopyCollections(cs)| == 2 * |cs| && CopyCollections(cs)[|cs|..] == cs
    ensures forall i :: 0 <= i < |cs| ==> CopyCollections(cs)[i] == Nil
    ensures CopyCollections(cs) == cs <==> cs == []
    ensures Search(CopyCollections(cs), key) == Crash <==> cs != []
  {
    if cs != [] {
      assert CopyCollections(cs)[0] == Nil;
    }
  }

  lemma SubsetSize<T>(a: set<T>, b: set<T>)
    requires a <= b
    ensures |a| <= |b|
  {
    assert b == a + (b - a);
  }

  /** Quorum intersection: two blocks with more than t distinct signers each, out of at most
      2 t + 1 members, share a signer. */
  lemma QuorumsIntersect(a: seq<Collection>, b: seq<Collection>, members: set<Key>, t: nat)
    requires DistinctSigners(a) && DistinctSigners(b)
    requires Keys(a) <= members && Keys(b) <= members && |members| <= 2 * t + 1
    requires |a| > t && |b| > t
    ensures Keys(a) * Keys(b) != {}
  {
    CountIsKeys(a);
    CountIsKeys(b);
    if Keys(a) * Keys(b) == {} {
      assert |Keys(a) + Keys(b)| == |Keys(a)| + |Keys(b)|;
      SubsetSize(Keys(a) + Keys(b), members);
    }
  }

  /** A quorum of n of the members. */
  lemma {:induction false} Quorum(members: set<Key>, n: nat) returns (cs: seq<Collection>)
    requires n <= |members|
    ensures DistinctSigners(cs) && |cs| == n && Keys(cs) <= members
  {
    if n == 0 {
      cs := [];
    } else {
      var key :| key in members;
      assert members == (members - {key}) + {key};
      var rest := Quorum(members - {key}, n - 1);
      forall c | c in rest ensures c != Signer(key) {
        assert c.key in Keys(rest);
      }
      cs := rest + [Signer(key)];
      assert Keys(cs) == Keys(rest) + {key};
    }
  }

  /** 2 t + 1 is the largest membership for which that holds: with one member more there are
      two such quorums that share no signer. */
  lemma QuorumsCanBeDisjoint(members: set<Key>, t: nat)
    requires |members| > 2 * t + 1
    ensures exists a, b :: DistinctSigners(a) && DistinctSigners(b) && |a| > t && |b| > t
                           && Keys(a) <= members && Keys(b) <= members && Keys(a) * Keys(b) == {}
  {
    var a := Quorum(members, t + 1);
    CountIsKeys(a);
    assert members == (members - Keys(a)) + Keys(a);
    var b := Quorum(members - Keys(a), t + 1);
  }

  class Block {
    const hash: Id
    var collections: seq<Collection>

    constructor (hash: Id, collections: seq<Collection>)
      ensures this.hash == hash && this.collections == collections
    {
      this.hash := hash;
      this.collections := collections;
    }

    /** Crashes on a nil entry, which every copy of a block with collections has. */
    method Copy() returns (ok: bool, copied: Block)
      ensures ok <==> NoNil(collections)
      ensures fresh(copied) && copied.hash == hash
      ensures ok ==> copied.collections == CopyCollections(collections)
    {
      var cs;
      ok, cs := CopyEntries(collections);
      copied := new Block(hash, cs);
    }

    method Sign(key: Key) returns (ok: bool)
      modifies this`collections
      ensures ok <==> Search(old(collections), key) != Crash
      ensures collections == Signed(old(collections), key)
    {
      var keyIndex := -1;
      var index := 0;
      while index < |collections|
        invariant 0 <= index <= |collections| && keyIndex == -1
        invariant collections == old(collections)
        invariant Search(collections, key) == Search(collections[index..], key)
      {
        if collections[index].Nil? {
          return false;
        }
        if collections[index].key == key {
          keyIndex := index;
          break;
        }
        index := index + 1;
      }
      if keyIndex < 0 {
        collections := collections + [Signer(key)];
      }
      ok := true;
    }
  }

  /** Go's conversion of a uint64 to a 64-bit int. */
  function AsInt(n: Uint64): int {
    if n < 0x8000_0000_0000_0000 then n else n - 0x1_0000_0000_0000_0000
  }

  class BlockBuffer {
    var blockMap: map<Id, Block>

    constructor ()
      ensures blockMap == map[]
    {
      blockMap := map[];
    }

    ghost predicate Valid()
      reads this
    {
      forall h :: h in blockMap ==> blockMap[h].hash == h
    }

    /** The collections of every buffered block. */
    ghost function Contents(): map<Id, seq<Collection>>
      reads this, blockMap.Values
    {
      map h | h in blockMap :: blockMap[h].collections
    }

    method Put(block: Block)
      requires Valid()
      modifies this
      ensures Valid() && Contents() == old(Contents())[block.hash := block.collections]
    {
      blockMap := blockMap[block.hash := block];
    }

    /** A block already buffered is signed again, with its own hash as the key. */
    method Set(block: Block) returns (ok: bool)
      requires Valid()
      modifies this, blockMap.Values
      ensures Valid()
      ensures ok <==> block.hash !in old(blockMap) || Search(old(Contents()[block.hash]), block.hash) != Crash
      ensures Contents() == AfterSet(old(Contents()), block.hash, old(block.collections))
    {
      if block.hash !in blockMap {
        blockMap := blockMap[block.hash := block];
        ok := true;
      } else {
        ok := blockMap[block.hash].Sign(block.hash);
      }
    }

    method In(hash: Id) returns (found: bool)
      ensures found <==> hash in Contents()
    {
      found := hash in blockMap;
    }

    /** Each once, in any order: below 2^63 exactly the buffered blocks with more entries than the
        threshold, and from there on, where the conversion is negative, all of them. */
    method HalfMore(memberLen: Uint64) returns (blocks: seq<Block>)
      requires Valid()
      ensures forall b :: b in blocks <==> b.hash in blockMap && blockMap[b.hash] == b
                                           && (memberLen < 0x8000_0000_0000_0000 ==> |b.collections| > memberLen)
      ensures forall i, j :: 0 <= i < j < |blocks| ==> blocks[i] != blocks[j]
      ensures blocks == [] <==> forall h :: h in Contents() ==> memberLen < 0x8000_0000_0000_0000 && |Contents()[h]| <= memberLen
    {
      blocks := [];
      var todo := blockMap.Keys;
      while todo != {}
        invariant todo <= blockMap.Keys
        invariant forall b :: b in blocks <==> b.hash in blockMap && b.hash !in todo && blockMap[b.hash] == b && |b.collections| > AsInt(memberLen)
        invariant forall i, j :: 0 <= i < j < |blocks| ==> blocks[i] != blocks[j]
      {
        var h :| h in todo;
        if |blockMap[h].collections| > AsInt(memberLen) {
          blocks := blocks + [blockMap[h]];
        }
        todo := todo - {h};
      }
      if blocks == [] {
        forall h | h in Contents() ensures |Contents()[h]| <= AsInt(memberLen) {
          assert blockMap[h] !in blocks;
        }
      } else {
        assert blocks[0] in blocks && blocks[0].hash in Contents();
      }
    }
  }

  function AfterSet(buffer: map<Id, seq<Collection>>, hash: Id, cs: seq<Collection>): map<Id, seq<Collection>> {
    if hash in buffer then buffer[hash := Signed(buffer[hash], hash)] else buffer[hash := cs]
  }
}
