/** The nonce search: hashing a candidate header and comparing the digest with the target. */
module Mining {
  import opened Bytes
  import opened Shift
  import opened HashBytes
  import opened Difficulty
  import opened Wire

  const MAX_NONCE: Uint32 := 0xffff_ffff

  /** SHA-256 as any total function to 32 bytes. */
  type Sha256 = seq<Byte> -> Hash

  datatype Fields = Fields(version: Uint32, bits: Uint32, nonce: Uint64, timestamp: Uint64, prevBlock: seq<Byte>, publicKey: seq<Byte>, data: seq<Byte>)

  /** The bytes fed to the hash, in order. */
  function Preimage(f: Fields): seq<Byte> {
    ToLittleEndian(f.version, 4) + ToLittleEndian(f.bits, 4) + ToLittleEndian(f.nonce, 8) + ToLittleEndian(f.timestamp, 8)
    + f.prevBlock + f.publicKey + f.data
  }

  /** For previous hashes of one length the hashed bytes fix every field except the boundary
      between the public key and the data. */
  lemma PreimageEqualIff(f: Fields, g: Fields)
    requires |f.prevBlock| == |g.prevBlock|
    ensures Preimage(f) == Preimage(g) <==>
            && f.version == g.version && f.bits == g.bits && f.nonce == g.nonce && f.timestamp == g.timestamp
            && f.prevBlock == g.prevBlock && f.publicKey + f.data == g.publicKey + g.data
  {
    WordBack(f.version);
    WordBack(g.version);
    WordBack(f.bits);
    WordBack(g.bits);
    LongBack(f.nonce);
    LongBack(g.nonce);
    LongBack(f.timestamp);
    LongBack(g.timestamp);
    PartsEqualIff(ToLittleEndian(f.version, 4), ToLittleEndian(f.bits, 4), ToLittleEndian(f.nonce, 8), ToLittleEndian(f.timestamp, 8), f.prevBlock, f.publicKey, f.data,
                  ToLittleEndian(g.version, 4), ToLittleEndian(g.bits, 4), ToLittleEndian(g.nonce, 8), ToLittleEndian(g.timestamp, 8), g.prevBlock, g.publicKey, g.data);
  }

  lemma PartsEqualIff(a: seq<Byte>, b: seq<Byte>, c: seq<Byte>, d: seq<Byte>, e: seq<Byte>, k: seq<Byte>, x: seq<Byte>,
                      a': seq<Byte>, b': seq<Byte>, c': seq<Byte>, d': seq<Byte>, e': seq<Byte>, k': seq<Byte>, x': seq<Byte>)
    requires |a| == |a'| && |b| == |b'| && |c| == |c'| && |d| == |d'| && |e| == |e'|
    ensures a + b + c + d + e + k + x == a' + b' + c' + d' + e' + k' + x' <==>
            a == a' && b == b' && c == c' && d == d' && e == e' && k + x == k' + x'
  {
    assert a + b + c + d + e + k + x == (a + b + c + d + e) + (k + x);
    assert a' + b' + c' + d' + e' + k' + x' == (a' + b' + c' + d' + e') + (k' + x');
    SplitIff(a + b + c + d + e, k + x, a' + b' + c' + d' + e', k' + x');
    SplitIff(a + b + c + d, e, a' + b' + c' + d', e');
    SplitIff(a + b + c, d, a' + b' + c', d');
    SplitIff(a + b, c, a' + b', c');
    SplitIff(a, b, a', b');
  }

  lemma SplitIff(a: seq<Byte>, b: seq<Byte>, a': seq<Byte>, b': seq<Byte>)
    requires |a| == |a'|
    ensures a + b == a' + b' <==> a == a' && b == b'
  {
    if a + b == a' + b' {
      assert (a + b)[..|a|] == a && (a' + b')[..|a|] == a';
      assert (a + b)[|a|..] == b && (a' + b')[|a|..] == b';
    }
  }

  /** The fields read back at fixed offsets; the lengths of the previous hash and the key are not
      in the bytes. */
  function ParsePreimage(s: seq<Byte>, prevLength: nat, keyLength: nat): Fields
    requires |s| >= 24 + prevLength + keyLength
  {
    LittleEndianFits(s[0..4]);
    LittleEndianFits(s[4..8]);
    LongFits(s[8..16]);
    LongFits(s[16..24]);
    Fields(LittleEndian(s[0..4]), LittleEndian(s[4..8]), LittleEndian(s[8..16]), LittleEndian(s[16..24]),
      s[24..24 + prevLength], s[24 + prevLength..24 + prevLength + keyLength], s[24 + prevLength + keyLength..])
  }

  lemma LongFits(s: seq<Byte>)
    requires |s| == 8
    ensures LittleEndian(s) < 0x1_0000_0000_0000_0000
  {
    LittleEndianBound(s);
    EightBytes();
  }

  lemma PartsAt(a: seq<Byte>, b: seq<Byte>, c: seq<Byte>, d: seq<Byte>, e: seq<Byte>, k: seq<Byte>, x: seq<Byte>)
    requires |a| == |b| == 4 && |c| == |d| == 8
    ensures var s := a + b + c + d + e + k + x;
            && s[0..4] == a && s[4..8] == b && s[8..16] == c && s[16..24] == d
            && s[24..24 + |e|] == e && s[24 + |e|..24 + |e| + |k|] == k && s[24 + |e| + |k|..] == x
  {
  }

  /** Version, target and nonce, time, previous hash, key and data lie in this order. */
  lemma PreimageRoundTrip(f: Fields)
    ensures |Preimage(f)| == 24 + |f.prevBlock| + |f.publicKey| + |f.data|
    ensures ParsePreimage(Preimage(f), |f.prevBlock|, |f.publicKey|) == f
  {
    WordBack(f.version);
    WordBack(f.bits);
    LongBack(f.nonce);
    LongBack(f.timestamp);
    PartsAt(ToLittleEndian(f.version, 4), ToLittleEndian(f.bits, 4), ToLittleEndian(f.nonce, 8), ToLittleEndian(f.timestamp, 8), f.prevBlock, f.publicKey, f.data);
  }

  class BlockHeader {
    const version: Uint32
    const bits: Uint32
    var nonce: Uint64
    var timestamp: Uint64
    const prevBlock: seq<Byte>
    const publicKey: seq<Byte>
    const data: seq<Byte>

    constructor (f: Fields)
      ensures Get() == f
    {
      version, bits, nonce, timestamp := f.version, f.bits, f.nonce, f.timestamp;
      prevBlock, publicKey, data := f.prevBlock, f.publicKey, f.data;
    }

    function Get(): Fields
      reads this
    {
      Fields(version, bits, nonce, timestamp, prevBlock, publicKey, data)
    }
  }

  /** The header is a pointer: whoever holds it writes into the block. */
  class Block {
    const header: BlockHeader
    var hash: array<Byte>

    constructor (header: BlockHeader, hash: array<Byte>)
      ensures this.header == header && this.hash == hash
    {
      this.header := header;
      this.hash := hash;
    }

    method CalculateHash(sha: Sha256) returns (digest: array<Byte>)
      ensures fresh(digest) && digest[..] == sha(Preimage(header.Get()))
    {
      var state: seq<Byte> := [];
      for i := 0 to 2
        invariant state == if i == 0 then [] else if i == 1 then ToLittleEndian(header.version, 4)
                           else ToLittleEndian(header.version, 4) + ToLittleEndian(header.bits, 4)
      {
        state := state + ToLittleEndian([header.version, header.bits][i], 4);
      }
      ghost var words := state;
      for i := 0 to 2
        invariant state == if i == 0 then words else if i == 1 then words + ToLittleEndian(header.nonce, 8)
                           else words + ToLittleEndian(header.nonce, 8) + ToLittleEndian(header.timestamp, 8)
      {
        state := state + ToLittleEndian([header.nonce, header.timestamp][i], 8);
      }
      state := state + header.prevBlock;
      state := state + header.publicKey;
      state := state + header.data;
      var sum := sha(state);
      digest := new Byte[HASH_SIZE](i requires 0 <= i < HASH_SIZE => sum[i]);
    }
  }

  /** What one pass of the search loop sees: whether quit is closed, the time, and whether the
      hash reports an error. */
  datatype Tick = Tick(quit: bool, now: Uint64, hashFails: bool)

  /** The first two are the returns of true and false; Running is a search still going. */
  datatype Outcome = Solved | QuitSeen | HashError | Running

  /** The digest, read as a little-endian number, is at most the target. */
  predicate Wins(sha: Sha256, f: Fields) {
    LittleEndian(sha(Preimage(f))) <= CompactToBig(f.bits)
  }

  function Attempt(f: Fields, i: nat, now: Uint64): Fields {
    f.(nonce := i % 0x1_0000_0000, timestamp := now)
  }

  /** The pass ends the search. */
  predicate Stops(sha: Sha256, f: Fields, i: nat, tick: Tick) {
    tick.quit || tick.hashFails || Wins(sha, Attempt(f, i, tick.now))
  }

  /** The pass on which the search ends, or the number of passes when none does. */
  function StopAt(sha: Sha256, f: Fields, ticks: seq<Tick>, i: nat): (n: nat)
    requires i <= |ticks|
    ensures i <= n <= |ticks|
    decreases |ticks| - i
  {
    if i == |ticks| || Stops(sha, f, i, ticks[i]) then i else StopAt(sha, f, ticks, i + 1)
  }

  function OutcomeOf(tick: Tick): Outcome {
    if tick.quit then QuitSeen else if tick.hashFails then HashError else Solved
  }

  function OutcomeAt(ticks: seq<Tick>, n: nat): Outcome
    requires n <= |ticks|
  {
    if n == |ticks| then Running else OutcomeOf(ticks[n])
  }

  /** The header when pass n begins. */
  function Before(f: Fields, ticks: seq<Tick>, n: nat): Fields
    requires n <= |ticks|
  {
    if n == 0 then f else Attempt(f, n - 1, ticks[n - 1].now)
  }

  /** The header when the search has ended on pass n. */
  function Final(f: Fields, ticks: seq<Tick>, n: nat): Fields
    requires n <= |ticks|
  {
    if OutcomeAt(ticks, n).Solved? || OutcomeAt(ticks, n).HashError? then Attempt(f, n, ticks[n].now) else Before(f, ticks, n)
  }

  /** One pass after the quit check: write the nonce and the time through the header pointer,
      hash, and compare. HashToBig leaves the digest reversed, and that is what is stored. */
  method TryNonce(sha: Sha256, block: Block, i: Uint32, tick: Tick) returns (outcome: Outcome)
    requires !tick.quit
    modifies block, block.header
    ensures block.header.Get() == Attempt(old(block.header.Get()), i, tick.now)
    ensures outcome == if Stops(sha, old(block.header.Get()), i, tick) then OutcomeOf(tick) else Running
    ensures outcome.Solved? ==> fresh(block.hash) && block.hash[..] == Reverse(sha(Preimage(block.header.Get())))
    ensures outcome.Solved? ==> BigEndian(block.hash[..]) <= CompactToBig(block.header.bits)
    ensures !outcome.Solved? ==> block.hash == old(block.hash)
    ensures outcome.Solved? <==> !tick.hashFails && LittleEndian(sha(Preimage(block.header.Get()))) <= CompactToBig(block.header.bits)
    ensures outcome.Running? <==> !tick.hashFails && LittleEndian(sha(Preimage(block.header.Get()))) > CompactToBig(block.header.bits)
    ensures block.header.nonce == i && block.header.timestamp == tick.now
  {
    block.header.nonce := i;
    block.header.timestamp := tick.now;
    if tick.hashFails {
      return HashError;
    }
    ghost var digest := LittleEndian(sha(Preimage(block.header.Get())));
    var hash := block.CalculateHash(sha);
    var value := HashToBig(hash);
    assert value == digest;
    if value <= CompactToBig(block.header.bits) {
      block.hash := hash;
      return Solved;
    }
    outcome := Running;
  }

  /** Pass n of the search on f is about to begin, with the counter and the header as given. */
  ghost predicate Searching(sha: Sha256, f: Fields, ticks: seq<Tick>, n: nat, i: Uint32, current: Fields) {
    && n <= |ticks|
    && i == n % 0x1_0000_0000
    && current == Before(f, ticks, n)
    && StopAt(sha, f, ticks, 0) == StopAt(sha, f, ticks, n)
  }

  /** A pass overwrites everything earlier passes changed, so it goes as if it were the first;
      when it stops the search stops there, otherwise the search goes on with the counter
      incremented modulo 2^32. */
  lemma OnePass(sha: Sha256, f: Fields, ticks: seq<Tick>, n: nat, i: Uint32, current: Fields)
    requires n < |ticks| && Searching(sha, f, ticks, n, i, current)
    ensures Attempt(current, i, ticks[n].now) == Attempt(f, n, ticks[n].now)
    ensures Stops(sha, current, i, ticks[n]) == Stops(sha, f, n, ticks[n])
    ensures Stops(sha, f, n, ticks[n]) ==> StopAt(sha, f, ticks, 0) == n
    ensures !Stops(sha, f, n, ticks[n]) ==> Searching(sha, f, ticks, n + 1, (i + 1) % 0x1_0000_0000, Attempt(f, n, ticks[n].now))
  {
    CounterWraps(n);
    Overwrites(f, ticks, n);
  }

  lemma CounterWraps(n: nat)
    ensures (n % 0x1_0000_0000 + 1) % 0x1_0000_0000 == (n + 1) % 0x1_0000_0000
  {
  }

  lemma Overwrites(f: Fields, ticks: seq<Tick>, n: nat)
    requires n < |ticks|
    ensures Attempt(Before(f, ticks, n), n % 0x1_0000_0000, ticks[n].now) == Attempt(f, n, ticks[n].now)
  {
  }

  /** The search as the source runs it over any finite stretch of passes. The counter is a
      32-bit word, so the loop condition always holds and the counter wraps. */
  method SolveBlock(sha: Sha256, block: Block, ticks: seq<Tick>) returns (outcome: Outcome)
    modifies block, block.header
    ensures var f := old(block.header.Get()); var n := StopAt(sha, f, ticks, 0);
            outcome == OutcomeAt(ticks, n) && block.header.Get() == Final(f, ticks, n)
    ensures outcome.Solved? ==> fresh(block.hash) && block.hash[..] == Reverse(sha(Preimage(block.header.Get())))
    ensures outcome.Solved? ==> BigEndian(block.hash[..]) <= CompactToBig(block.header.bits)
    ensures !outcome.Solved? ==> block.hash == old(block.hash)
  {
    ghost var f := block.header.Get();
    var i: Uint32 := 0;
    var pass := 0;
    while i <= MAX_NONCE && pass < |ticks|
      invariant Searching(sha, f, ticks, pass, i, block.header.Get())
      invariant block.hash == old(block.hash)
      decreases |ticks| - pass
    {
      OnePass(sha, f, ticks, pass, i, block.header.Get());
      if ticks[pass].quit {
        return QuitSeen;
      }
      outcome := TryNonce(sha, block, i, ticks[pass]);
      if outcome != Running {
        return;
      }
      i := (i + 1) % 0x1_0000_0000;
      pass := pass + 1;
    }
    outcome := Running;
  }

  lemma {:induction false} StopAtIsFirst(sha: Sha256, f: Fields, ticks: seq<Tick>, i: nat)
    requires i <= |ticks|
    ensures forall j :: i <= j < StopAt(sha, f, ticks, i) ==> !Stops(sha, f, j, ticks[j])
    ensures var n := StopAt(sha, f, ticks, i); n < |ticks| ==> Stops(sha, f, n, ticks[n])
    decreases |ticks| - i
  {
    if i < |ticks| && !Stops(sha, f, i, ticks[i]) {
      StopAtIsFirst(sha, f, ticks, i + 1);
    }
  }

  /** The number the digest of the header with this nonce and time stands for. */
  function DigestAt(sha: Sha256, f: Fields, nonce: Uint32, now: Uint64): nat {
    LittleEndian(sha(Preimage(f.(nonce := nonce, timestamp := now))))
  }

  lemma WinsMeans(sha: Sha256, f: Fields, i: nat, now: Uint64)
    ensures Wins(sha, Attempt(f, i, now)) <==> DigestAt(sha, f, i % 0x1_0000_0000, now) <= CompactToBig(f.bits)
  {
    assert Attempt(f, i, now) == f.(nonce := i % 0x1_0000_0000, timestamp := now);
  }

  /** The search returns true exactly when on some pass the digest is at most the target, and no
      quit or hash error is seen up to it. */
  lemma SolvedIff(sha: Sha256, f: Fields, ticks: seq<Tick>)
    ensures OutcomeAt(ticks, StopAt(sha, f, ticks, 0)).Solved? <==> exists n :: WinsFirst(sha, f, ticks, n)
  {
    var n := StopAt(sha, f, ticks, 0);
    StopAtIsFirst(sha, f, ticks, 0);
    if OutcomeAt(ticks, n).Solved? {
      assert Stops(sha, f, n, ticks[n]);
      assert forall j :: 0 <= j < n ==> !Stops(sha, f, j, ticks[j]);
      WinsMeans(sha, f, n, ticks[n].now);
      assert WinsFirst(sha, f, ticks, n);
    } else if k :| WinsFirst(sha, f, ticks, k) {
      WinsMeans(sha, f, k, ticks[k].now);
      assert Stops(sha, f, k, ticks[k]);
    }
  }

  /** On pass n the digest is at most the target, and no quit or hash error is seen up to it. */
  ghost predicate WinsFirst(sha: Sha256, f: Fields, ticks: seq<Tick>, n: int) {
    && 0 <= n < |ticks|
    && DigestAt(sha, f, n % 0x1_0000_0000, ticks[n].now) <= CompactToBig(f.bits)
    && (forall j :: 0 <= j <= n ==> !ticks[j].quit && !ticks[j].hashFails)
  }

  /** Where the search ends, quit is looked at before the header is touched: it then still is as
      the pass before left it, and otherwise has this pass's nonce and time. */
  lemma FinalIs(f: Fields, ticks: seq<Tick>, n: nat)
    requires n <= |ticks|
    ensures n < |ticks| && !ticks[n].quit ==> Final(f, ticks, n) == f.(nonce := n % 0x1_0000_0000, timestamp := ticks[n].now)
    ensures (n == |ticks| || ticks[n].quit) && n > 0 ==> Final(f, ticks, n) == f.(nonce := (n - 1) % 0x1_0000_0000, timestamp := ticks[n - 1].now)
    ensures (n == |ticks| || ticks[n].quit) && n == 0 ==> Final(f, ticks, n) == f
    ensures OutcomeAt(ticks, n) == if n == |ticks| then Running else if ticks[n].quit then QuitSeen else if ticks[n].hashFails then HashError else Solved
  {
  }

  /** Any 2^32 passes in a row try every nonce exactly once. */
  lemma EachNonceOnce(f: Fields, ticks: seq<Tick>, n: nat, v: Uint32) returns (j: nat)
    requires n + 0x1_0000_0000 <= |ticks|
    ensures n <= j < n + 0x1_0000_0000 && Attempt(f, j, ticks[j].now).nonce == v
    ensures forall k :: n <= k < n + 0x1_0000_0000 && Attempt(f, k, ticks[k].now).nonce == v ==> k == j
  {
    var r := n % 0x1_0000_0000;
    j := if r <= v then n - r + v else n - r + 0x1_0000_0000 + v;
    Congruent(n, r, v, j);
    forall k | n <= k < n + 0x1_0000_0000 && Attempt(f, k, ticks[k].now).nonce == v ensures k == j {
      SameRemainder(j, k);
    }
  }

  lemma Congruent(n: nat, r: Uint32, v: Uint32, j: nat)
    requires r == n % 0x1_0000_0000 && (j == n - r + v || j == n - r + 0x1_0000_0000 + v)
    ensures j % 0x1_0000_0000 == v
  {
  }

  lemma SameRemainder(j: nat, k: nat)
    requires j % 0x1_0000_0000 == k % 0x1_0000_0000 && -0x1_0000_0000 < j - k < 0x1_0000_0000
    ensures j == k
  {
  }

  /** A search goes on exactly as long as it meets no quit and no hash error and every digest is
      above the target. */
  lemma RunningIff(sha: Sha256, f: Fields, ticks: seq<Tick>)
    ensures OutcomeAt(ticks, StopAt(sha, f, ticks, 0)) == Running <==>
            forall j :: 0 <= j < |ticks| ==>
              !ticks[j].quit && !ticks[j].hashFails && DigestAt(sha, f, j % 0x1_0000_0000, ticks[j].now) > CompactToBig(f.bits)
  {
    StopAtIsFirst(sha, f, ticks, 0);
    forall j | 0 <= j < |ticks|
      ensures Stops(sha, f, j, ticks[j]) <==>
              ticks[j].quit || ticks[j].hashFails || DigestAt(sha, f, j % 0x1_0000_0000, ticks[j].now) <= CompactToBig(f.bits) {
      WinsMeans(sha, f, j, ticks[j].now);
    }
  }

  /** The nonce range never runs out: however long a search has been going on, it has found, in
      every stretch of 2^32 passes and for every nonce, one pass on which the digest with that
      nonce and that pass's time was above the target. */
  lemma NeverExhausted(sha: Sha256, f: Fields, ticks: seq<Tick>, n: nat, v: Uint32)
    requires OutcomeAt(ticks, StopAt(sha, f, ticks, 0)) == Running && n + 0x1_0000_0000 <= |ticks|
    ensures exists j :: n <= j < n + 0x1_0000_0000 && Attempt(f, j, ticks[j].now) == f.(nonce := v, timestamp := ticks[j].now)
                        && DigestAt(sha, f, v, ticks[j].now) > CompactToBig(f.bits)
  {
    var j := EachNonceOnce(f, ticks, n, v);
    RunningIff(sha, f, ticks);
    assert Attempt(f, j, ticks[j].now) == f.(nonce := v, timestamp := ticks[j].now);
  }
}
