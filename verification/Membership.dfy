/** Who belongs to the signing committee: the authors of the last blocks, found by walking the
    previous hashes. The source has two such walks; the second declares a new variable inside
    its loop, so its walk variable never moves. */
module Membership {
  import opened Bytes
  import opened BlockDb
  import opened Chain
  import opened Signing
  import opened SigningRuns

  /** The blocks met on the way back from b, at most n of them. */
  function Window(db: Db, b: Option<BlockDb.Block>, n: nat): (w: seq<BlockDb.Block>)
    ensures |w| <= n
    decreases n
  {
    if n == 0 || b.None? then [] else [b.value] + Window(db, GetByID(db, b.value.prevBlock), n - 1)
  }

  function Committee(db: Db): seq<BlockDb.Block> {
    Window(db, GetLatest(db), COSI_MEMBERS)
  }

  ghost function Authors(w: seq<BlockDb.Block>): set<Key> {
    set b | b in w :: b.publicKey
  }

  lemma WindowStep(db: Db, b: BlockDb.Block, n: nat)
    requires n > 0
    ensures Authors(Window(db, Some(b), n)) == {b.publicKey} + Authors(Window(db, GetByID(db, b.prevBlock), n - 1))
  {
    var rest := Window(db, GetByID(db, b.prevBlock), n - 1);
    assert Window(db, Some(b), n) == [b] + rest;
    assert forall x :: x in [b] + rest <==> x == b || x in rest;
  }

  /** One round of a walk that collects authors. */
  lemma CollectStep(db: Db, all: set<Key>, members: set<Key>, b: BlockDb.Block, n: nat)
    requires n > 0 && all == members + Authors(Window(db, Some(b), n))
    ensures GetByID(db, b.prevBlock).None? ==> all == members + {b.publicKey}
    ensures GetByID(db, b.prevBlock).Some? ==> all == members + {b.publicKey} + Authors(Window(db, GetByID(db, b.prevBlock), n - 1))
  {
    WindowStep(db, b, n);
  }

  /** isBFTMember: true exactly when the key signed one of the last blocks. */
  method IsBFTMember(store: BlockDB, self: Key) returns (member: bool)
    ensures member <==> self in Authors(Committee(store.Get()))
  {
    ghost var db := store.Get();
    var pointer := store.Latest();
    var count := COSI_MEMBERS;
    while pointer.Some? && count > 0
      invariant 0 <= count <= COSI_MEMBERS
      invariant self in Authors(Committee(db)) <==> self in Authors(Window(db, pointer, count))
      decreases count
    {
      WindowStep(db, pointer.value, count);
      if pointer.value.publicKey == self {
        return true;
      }
      count := count - 1;
      pointer := store.ByID(pointer.value.prevBlock);
    }
    member := false;
  }

  lemma NothingLeft(db: Db, all: set<Key>, members: set<Key>, b: BlockDb.Block)
    requires all == members + Authors(Window(db, Some(b), 0))
    ensures all == members
  {
    assert Authors([]) == {};
  }

  method CollectAuthors(store: BlockDB, latest: BlockDb.Block, n: nat) returns (members: set<Key>)
    ensures members == Authors(Window(store.Get(), Some(latest), n))
  {
    ghost var db := store.Get();
    ghost var all := Authors(Window(db, Some(latest), n));
    members := {};
    var block, i := latest, 0;
    while i < n
      invariant 0 <= i <= n
      invariant all == members + Authors(Window(db, Some(block), n - i))
    {
      CollectStep(db, all, members, block, n - i);
      members := members + {block.publicKey};
      if |block.prevBlock| == 0 {
        return;
      }
      var previous := store.ByID(block.prevBlock);
      if previous.None? {
        return;
      }
      block := previous.value;
      i := i + 1;
    }
    NothingLeft(db, all, members, block);
  }

  /** getLatestPublicKeyMap with a walk that advances. It starts on a copy of the latest block,
      and so crashes when that block's ordered blocks are signed. */
  method AdvancingPublicKeyMap(store: BlockDB) returns (ok: bool, members: set<Key>)
    ensures ok <==> GetLatest(store.Get()).None? || Unsigned(GetLatest(store.Get()).value)
    ensures ok ==> members == Authors(Committee(store.Get()))
  {
    ok, members := true, {};
    var latest := store.Latest();
    if latest.None? {
      return;
    }
    ok := ReadAndCopy(latest.value);
    if ok {
      members := CollectAuthors(store, latest.value, COSI_MEMBERS);
    }
  }

  /** getLatestPublicKeyMap as it is written: the fetched block shadows the walk variable. */
  method ShadowedPublicKeyMap(store: BlockDB) returns (ok: bool, members: set<Key>)
    ensures ok <==> GetLatest(store.Get()).None? || Unsigned(GetLatest(store.Get()).value)
    ensures ok ==> members == ShadowedKeys(store.Get())
  {
    ok, members := true, {};
    var latest := store.Latest();
    if latest.None? {
      return;
    }
    ok := ReadAndCopy(latest.value);
    if !ok {
      return;
    }
    var block := latest.value;
    var i := 0;
    while i < COSI_MEMBERS
      invariant 0 <= i <= COSI_MEMBERS
      invariant members == if i == 0 then {} else {block.publicKey}
    {
      members := members + {block.publicKey};
      if |block.prevBlock| == 0 {
        break;
      }
      var shadowing := store.ByID(block.prevBlock);
      if shadowing.None? {
        break;
      }
      i := i + 1;
    }
  }

  function ShadowedKeys(db: Db): set<Key> {
    if GetLatest(db).None? then {} else {GetLatest(db).value.publicKey}
  }

  /** The written map names only committee members, and names all of them exactly when every
      committee block has the latest block's author. */
  lemma ShadowedIsCommitteeIff(db: Db)
    ensures ShadowedKeys(db) <= Authors(Committee(db))
    ensures ShadowedKeys(db) == Authors(Committee(db)) <==>
            forall b :: b in Committee(db) ==> b.publicKey == GetLatest(db).value.publicKey
  {
    var w := Committee(db);
    if GetLatest(db).Some? {
      assert w[0] == GetLatest(db).value && w[0] in w;
      if ShadowedKeys(db) == Authors(w) {
        forall b | b in w ensures b.publicKey == GetLatest(db).value.publicKey {
          assert b.publicKey in Authors(w);
        }
      }
    }
  }

  /** The entries of w are the blocks indexed at heights h, h - 1, ... */
  ghost predicate CountsDown(db: Db, h: int, w: seq<BlockDb.Block>) {
    |w| <= h + 1 && forall i :: 0 <= i < |w| ==> LookupIndex(db, h - i) == Indexed(Some(w[i]))
  }

  lemma HeightBelow(db: Db, h: nat)
    requires Linked(db) && h <= Tip(db).index
    ensures h in db.index && GetByID(db, db.index[h]).Some?
    ensures LookupIndex(db, h) == Indexed(GetByID(db, db.index[h]))
    ensures h > 0 ==> h - 1 in db.index && GetByID(db, GetByID(db, db.index[h]).value.prevBlock) == GetByID(db, db.index[h - 1])
    ensures h == 0 ==> GetByID(db, GetByID(db, db.index[0]).value.prevBlock).None?
  {
    assert h in db.index;
  }

  lemma CountsDownOne(db: Db, h: nat, b: BlockDb.Block, rest: seq<BlockDb.Block>)
    requires CountsDown(db, h - 1, rest) && LookupIndex(db, h) == Indexed(Some(b))
    ensures CountsDown(db, h, [b] + rest)
  {
    var w := [b] + rest;
    forall i | 0 <= i < |w| ensures LookupIndex(db, h - i) == Indexed(Some(w[i])) {
      assert i > 0 ==> w[i] == rest[i - 1] && LookupIndex(db, h - 1 - (i - 1)) == Indexed(Some(rest[i - 1]));
    }
  }

  /** On a linked chain the window is as long as there are heights, newest first. */
  lemma {:induction false} WindowOnChain(db: Db, h: nat, n: nat)
    requires Linked(db) && h in db.index
    ensures var w := Window(db, GetByID(db, db.index[h]), n);
            |w| == (if h + 1 < n then h + 1 else n) && CountsDown(db, h, w)
    decreases n
  {
    HeightBelow(db, h);
    if n > 0 {
      var b := GetByID(db, db.index[h]).value;
      if h > 0 {
        WindowOnChain(db, h - 1, n - 1);
      }
      CountsDownOne(db, h, b, Window(db, GetByID(db, b.prevBlock), n - 1));
    }
  }

  /** The committee of a linked chain is its last min(11, height + 1) blocks. */
  lemma CommitteeOnChain(db: Db)
    requires Linked(db)
    ensures var t := Tip(db).index;
            && |Committee(db)| == (if t + 1 < 11 then t + 1 else 11)
            && CountsDown(db, t, Committee(db))
  {
    assert db.index[Tip(db).index] == db.latest;
    WindowOnChain(db, Tip(db).index, COSI_MEMBERS);
  }

  lemma {:induction false} AuthorsAtMost(w: seq<BlockDb.Block>)
    ensures |Authors(w)| <= |w|
  {
    if w == [] {
      assert Authors(w) == {};
    } else {
      var front, last := w[..|w| - 1], w[|w| - 1];
      AuthorsAtMost(front);
      assert w == front + [last];
      assert Authors(w) == Authors(front) + {last.publicKey};
    }
  }

  /** The leader's threshold against the committee: distinct committee signatures exceed it
      exactly below height 11, when the height + 1 committee members are all different and all
      of them have signed. */
  lemma ThresholdAgainstCommittee(db: Db, signers: set<Key>)
    requires Linked(db) && signers <= Authors(Committee(db))
    ensures var t := Tip(db).index;
            |signers| > (if t < COSI_MEMBERS then t else COSI_MEMBERS) <==> t < COSI_MEMBERS && |signers| == t + 1 && signers == Authors(Committee(db))
  {
    assert |Authors(Committee(db))| <= Tip(db).index + 1 && |Authors(Committee(db))| <= COSI_MEMBERS by {
      CommitteeOnChain(db);
      AuthorsAtMost(Committee(db));
    }
    SubsetSize(signers, Authors(Committee(db)));
    SameSizeSubset(signers, Authors(Committee(db)));
  }

  lemma SameSizeSubset<T>(a: set<T>, b: set<T>)
    requires a <= b
    ensures |a| == |b| ==> a == b
  {
    if a != b {
      var x :| x in b && x !in a;
      SubsetSize(a + {x}, b);
    }
  }
}
