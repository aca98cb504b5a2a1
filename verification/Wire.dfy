/** Little-endian serialization of block headers through a free list of 8-byte buffers. */
module Wire {
  import opened Bytes
  import opened Shift
  import opened HashBytes

  const FREE_LIST_MAX_ITEMS := 1024
  const MAX_BLOCK_HEADER_PAYLOAD := 12 + 2 * HASH_SIZE

  type Hash = s: seq<Byte> | |s| == HASH_SIZE witness seq(HASH_SIZE, _ => 0)

  /** How many more bytes a writer takes before it fails. */
  datatype Room = Unlimited | Bytes(left: nat)

  function Taken(room: Room, n: nat): nat {
    if room.Unlimited? then n else Min(room.left, n)
  }

  function RoomAfter(room: Room, n: nat): Room {
    if room.Unlimited? then Unlimited else Bytes(room.left - Taken(room, n))
  }

  class Writer {
    var contents: seq<Byte>
    var room: Room

    constructor (room: Room)
      ensures contents == [] && this.room == room
    {
      contents := [];
      this.room := room;
    }

    /** A short write keeps what fits and reports an error. */
    method Write(bytes: seq<Byte>) returns (ok: bool)
      modifies this
      ensures contents == old(contents) + bytes[..Taken(old(room), |bytes|)]
      ensures room == RoomAfter(old(room), |bytes|)
      ensures ok <==> Taken(old(room), |bytes|) == |bytes|
    {
      var n := Taken(room, |bytes|);
      contents := contents + bytes[..n];
      room := RoomAfter(room, |bytes|);
      ok := n == |bytes|;
    }
  }

  class Reader {
    var rest: seq<Byte>

    constructor (bytes: seq<Byte>)
      ensures rest == bytes
    {
      rest := bytes;
    }

    /** io.ReadFull into the first n bytes of the buffer: a short input is used up and
        reported. */
    method ReadFull(buf: array<Byte>, n: nat) returns (ok: bool)
      requires n <= buf.Length
      modifies this, buf
      ensures ok <==> n <= |old(rest)|
      ensures ok ==> buf[..n] == old(rest)[..n] && rest == old(rest)[n..]
      ensures !ok ==> rest == []
    {
      var m := Min(n, |rest|);
      var i := 0;
      while i < m
        invariant 0 <= i <= m && rest == old(rest)
        invariant buf[..i] == rest[..i]
      {
        buf[i] := rest[i];
        i := i + 1;
      }
      ok := m == n;
      rest := rest[m..];
    }
  }

  /** binary.LittleEndian.PutUint16, PutUint32 and PutUint64: only the first `width` bytes of
      the buffer are overwritten. */
  method FillLittleEndian(buf: array<Byte>, val: nat, width: nat)
    requires width <= buf.Length
    modifies buf
    ensures buf[..width] == ToLittleEndian(val, width)
    ensures buf[width..] == old(buf[width..])
  {
    var i, v := 0, val;
    while i < width
      invariant 0 <= i <= width
      invariant buf[..i] + ToLittleEndian(v, width - i) == ToLittleEndian(val, width)
      invariant buf[width..] == old(buf[width..])
    {
      ghost var done := buf[..i];
      buf[i] := v % 256;
      assert buf[..i + 1] == done + [v % 256];
      v := v / 256;
      i := i + 1;
    }
  }

  class FreeList {
    var items: seq<array<Byte>>

    constructor ()
      ensures Valid() && items == []
    {
      items := [];
    }

    ghost function Buffers(): set<object>
      reads this
    {
      set b | b in items
    }

    ghost predicate Valid()
      reads this
    {
      && |items| <= FREE_LIST_MAX_ITEMS
      && (forall i :: 0 <= i < |items| ==> items[i].Length == 8)
      && (forall i, j :: 0 <= i < j < |items| ==> items[i] != items[j])
    }

    /** The oldest buffer of the list, or a new one. */
    method Borrow() returns (buf: array<Byte>)
      requires Valid()
      modifies this
      ensures Valid() && buf.Length == 8 && buf !in items
      ensures old(items) == [] ==> fresh(buf) && items == []
      ensures old(items) != [] ==> buf == old(items)[0] && items == old(items)[1..]
    {
      if items != [] {
        buf := items[0];
        items := items[1..];
      } else {
        buf := new Byte[8];
      }
    }

    /** A full list drops the buffer. */
    method Return(buf: array<Byte>)
      requires Valid() && buf.Length == 8 && buf !in items
      modifies this
      ensures Valid()
      ensures items == if |old(items)| < FREE_LIST_MAX_ITEMS then old(items) + [buf] else old(items)
    {
      if |items| < FREE_LIST_MAX_ITEMS {
        items := items + [buf];
      }
    }

    /** PutUint8, PutUint16, PutUint32 and PutUint64, by width. What the recycled buffer held
        does not show in the output. */
    method PutUint(w: Writer, val: nat, width: nat) returns (ok: bool)
      requires Valid() && 1 <= width <= 8
      modifies this, w, Buffers()
      ensures Valid() && fresh(Buffers() - old(Buffers()))
      ensures w.contents == old(w.contents) + ToLittleEndian(val, width)[..Taken(old(w.room), width)]
      ensures w.room == RoomAfter(old(w.room), width)
      ensures ok <==> Taken(old(w.room), width) == width
    {
      var buf := Borrow();
      FillLittleEndian(buf, val, width);
      ok := w.Write(buf[..width]);
      Return(buf);
    }

    /** Uint8, Uint16, Uint32 and Uint64, by width. */
    method ReadUint(r: Reader, width: nat) returns (ok: bool, val: nat)
      requires Valid() && 1 <= width <= 8
      modifies this, r, Buffers()
      ensures Valid() && fresh(Buffers() - old(Buffers()))
      ensures ok <==> width <= |old(r.rest)|
      ensures ok ==> val == LittleEndian(old(r.rest)[..width]) && r.rest == old(r.rest)[width..]
      ensures !ok ==> val == 0 && r.rest == []
    {
      var buf := Borrow();
      ok := r.ReadFull(buf, width);
      val := if ok then LittleEndian(buf[..width]) else 0;
      Return(buf);
    }
  }

  /** The element types writeElement tells apart. */
  datatype Element =
    | Int32(i: int)
    | Word32(u: Uint32)
    | Int64(l: int)
    | Word64(v: Uint64)
    | Flag(b: bool)
    | Raw(bytes: seq<Byte>)

  const TWO32: nat := 0x1_0000_0000

  /** Signed values are converted modulo 2^32, the 64-bit one too, before it is written on
      eight bytes. */
  function Encode(e: Element): seq<Byte> {
    match e
    case Int32(i) => ToLittleEndian(i % TWO32, 4)
    case Word32(u) => ToLittleEndian(u, 4)
    case Int64(l) => ToLittleEndian(l % TWO32, 8)
    case Word64(v) => ToLittleEndian(v, 8)
    case Flag(b) => ToLittleEndian(if b then 1 else 0, 1)
    case Raw(bytes) => bytes
  }

  function EncodeAll(es: seq<Element>): seq<Byte> {
    if es == [] then [] else EncodeAll(es[..|es| - 1]) + Encode(es[|es| - 1])
  }

  /** What each element's bytes are: unsigned numbers read back, 32-bit ones are in two's
      complement, 64-bit signed ones are cut to their low 32 bits and followed by four zeros, and
      flags are one byte. */
  lemma EncodedAs(e: Element)
    ensures e.Word32? ==> |Encode(e)| == 4 && LittleEndian(Encode(e)) == e.u
    ensures e.Word64? ==> |Encode(e)| == 8 && LittleEndian(Encode(e)) == e.v
    ensures e.Int32? && 0 <= e.i < 0x8000_0000 ==> |Encode(e)| == 4 && LittleEndian(Encode(e)) == e.i
    ensures e.Int32? && -0x8000_0000 <= e.i < 0 ==> |Encode(e)| == 4 && LittleEndian(Encode(e)) == e.i + 0x1_0000_0000
    ensures e.Int64? ==> Encode(e) == Encode(Int32(e.l)) + [0, 0, 0, 0]
    ensures e.Flag? ==> Encode(e) == [if e.b then 1 else 0]
    ensures e.Raw? ==> Encode(e) == e.bytes
  {
    match e
    case Int32(i) => WordBack(i % TWO32);
    case Word32(u) => WordBack(u);
    case Int64(l) => FourBytes(); ZeroTail(l % TWO32, 4, 4);
    case Word64(v) => LongBack(v);
    case Flag(b) => assert ToLittleEndian(if b then 1 else 0, 1) == [if b then 1 else 0] + ToLittleEndian(0, 0);
    case Raw(_) =>
  }

  lemma LongBack(v: Uint64)
    ensures LittleEndian(ToLittleEndian(v, 8)) == v
  {
    ReadBack(v, 8);
    EightBytes();
    SmallRemainder(v, Pow256(8));
  }

  lemma EightBytes()
    ensures Pow256(8) == 0x1_0000_0000_0000_0000
  {
    FourBytes();
    assert Pow256(5) == 256 * Pow256(4) && Pow256(6) == 256 * Pow256(5) && Pow256(7) == 256 * Pow256(6) && Pow256(8) == 256 * Pow256(7);
  }

  /** The bytes of a number after those it needs are zero. */
  lemma {:induction false} ZeroTail(v: nat, width: nat, more: nat)
    requires v < Pow256(width)
    ensures ToLittleEndian(v, width + more) == ToLittleEndian(v, width) + seq(more, _ => 0)
    decreases width + more
  {
    if width > 0 {
      ZeroTail(v / 256, width - 1, more);
    } else if more > 0 {
      ZeroTail(0, 0, more - 1);
    }
  }

  method WriteElement(l: FreeList, w: Writer, e: Element) returns (ok: bool)
    requires l.Valid()
    modifies l, w, l.Buffers()
    ensures l.Valid() && fresh(l.Buffers() - old(l.Buffers()))
    ensures w.contents == old(w.contents) + Encode(e)[..Taken(old(w.room), |Encode(e)|)]
    ensures w.room == RoomAfter(old(w.room), |Encode(e)|)
    ensures ok <==> Taken(old(w.room), |Encode(e)|) == |Encode(e)|
  {
    match e
    case Int32(i) => ok := l.PutUint(w, i % TWO32, 4);
    case Word32(u) => ok := l.PutUint(w, u, 4);
    case Int64(i) => ok := l.PutUint(w, i % TWO32, 8);
    case Word64(v) => ok := l.PutUint(w, v, 8);
    case Flag(b) => ok := l.PutUint(w, if b then 1 else 0, 1);
    case Raw(bytes) => ok := w.Write(bytes);
  }

  lemma {:induction false} EncodeAllPrefix(es: seq<Element>, n: nat)
    requires n <= |es|
    ensures EncodeAll(es[..n]) <= EncodeAll(es)
  {
    if n < |es| {
      EncodeAllPrefix(es[..|es| - 1], n);
      assert es[..|es| - 1][..n] == es[..n];
    } else {
      assert es[..n] == es;
    }
  }

  /** Writing `done` and then `next` is writing their concatenation, as far as there is room. */
  lemma WritesCompose(room: Room, done: seq<Byte>, next: seq<Byte>)
    requires Taken(room, |done|) == |done|
    ensures done + next[..Taken(RoomAfter(room, |done|), |next|)] == (done + next)[..Taken(room, |done + next|)]
    ensures RoomAfter(RoomAfter(room, |done|), |next|) == RoomAfter(room, |done + next|)
    ensures Taken(RoomAfter(room, |done|), |next|) == |next| <==> Taken(room, |done + next|) == |done + next|
  {
  }

  lemma ShortWriteStops(room: Room, done: seq<Byte>, all: seq<Byte>)
    requires done <= all && Taken(room, |done|) != |done|
    ensures done[..Taken(room, |done|)] == all[..Taken(room, |all|)] && Taken(room, |all|) != |all|
  {
  }

  /** One more element after `done` has been written completely, on the way to writing
      `all`. */
  method WriteNext(l: FreeList, w: Writer, e: Element, ghost start: seq<Byte>, ghost room: Room, ghost done: seq<Byte>, ghost next: seq<Byte>, ghost all: seq<Byte>)
    returns (ok: bool)
    requires l.Valid() && next == Encode(e) && done + next <= all
    requires w.contents == start + done && w.room == RoomAfter(room, |done|) && Taken(room, |done|) == |done|
    modifies l, w, l.Buffers()
    ensures l.Valid() && fresh(l.Buffers() - old(l.Buffers()))
    ensures ok ==> w.contents == start + (done + next) && w.room == RoomAfter(room, |done + next|)
    ensures ok ==> Taken(room, |done + next|) == |done + next|
    ensures !ok ==> w.contents == start + all[..Taken(room, |all|)] && Taken(room, |all|) != |all|
  {
    ok := WriteElement(l, w, e);
    assert w.contents == start + (done + next[..Taken(RoomAfter(room, |done|), |next|)]);
    WritesCompose(room, done, next);
    if !ok {
      ShortWriteStops(room, done + next, all);
    }
  }

  lemma WholeTaken(all: seq<Byte>, n: nat)
    requires n == |all|
    ensures all[..n] == all
  {
  }

  /** Several elements go out back to back; the first failing write stops the loop, and what
      was written is a prefix of the whole encoding. */
  method WriteElements(l: FreeList, w: Writer, es: seq<Element>) returns (ok: bool)
    requires l.Valid()
    modifies l, w, l.Buffers()
    ensures l.Valid() && fresh(l.Buffers() - old(l.Buffers()))
    ensures w.contents == old(w.contents) + EncodeAll(es)[..Taken(old(w.room), |EncodeAll(es)|)]
    ensures ok <==> Taken(old(w.room), |EncodeAll(es)|) == |EncodeAll(es)|
  {
    ghost var start, room, done, all := w.contents, w.room, [], EncodeAll(es);
    var n := 0;
    while n < |es|
      invariant 0 <= n <= |es| && l.Valid()
      invariant fresh(l.Buffers() - old(l.Buffers()))
      invariant done == EncodeAll(es[..n])
      invariant w.contents == start + done && w.room == RoomAfter(room, |done|)
      invariant Taken(room, |done|) == |done|
    {
      ghost var next := Encode(es[n]);
      assert done + next <= all && done + next == EncodeAll(es[..n + 1]) by { EncodeNext(es, n); }
      ok := WriteNext(l, w, es[n], start, room, done, next, all);
      if !ok {
        return;
      }
      done := done + next;
      n := n + 1;
    }
    assert done == all by { assert es[..n] == es; }
    WholeTaken(all, Taken(room, |all|));
    ok := true;
  }

  lemma EncodeNext(es: seq<Element>, n: nat)
    requires n < |es|
    ensures EncodeAll(es[..n + 1]) == EncodeAll(es[..n]) + Encode(es[n]) <= EncodeAll(es)
  {
    assert es[..n + 1][..n] == es[..n];
    EncodeAllPrefix(es, n + 1);
  }

  /** A block header as it goes on the wire; the time is in seconds and may lie outside the
      32 bits written. */
  datatype Header = Header(version: Uint32, prevBlock: Hash, merkleRoot: Hash, timestamp: int, bits: Uint32)

  function HeaderElements(h: Header): seq<Element> {
    [Word32(h.version), Raw(h.prevBlock), Raw(h.merkleRoot), Word32(h.timestamp % TWO32), Word32(h.bits)]
  }

  lemma EncodeSnoc(es: seq<Element>, front: seq<Element>, prefix: seq<Byte>, last: seq<Byte>)
    requires |es| > 0 && es[..|es| - 1] == front
    requires EncodeAll(front) == prefix && Encode(es[|es| - 1]) == last
    ensures EncodeAll(es) == prefix + last
  {
  }

  lemma EncodeTwo(a: Element, b: Element, x: seq<Byte>, y: seq<Byte>)
    requires Encode(a) == x && Encode(b) == y
    ensures EncodeAll([a, b]) == x + y
  {
    EncodeSnoc([a], [], [], x);
    assert [] + x == x;
    EncodeSnoc([a, b], [a], x, y);
  }

  lemma EncodeFive(a: Element, b: Element, c: Element, d: Element, e: Element, x: seq<Byte>, y: seq<Byte>, z: seq<Byte>, u: seq<Byte>, v: seq<Byte>)
    requires Encode(a) == x && Encode(b) == y && Encode(c) == z && Encode(d) == u && Encode(e) == v
    ensures EncodeAll([a, b, c, d, e]) == x + y + z + u + v
  {
    EncodeTwo(a, b, x, y);
    EncodeSnoc([a, b, c], [a, b], x + y, z);
    EncodeSnoc([a, b, c, d], [a, b, c], x + y + z, u);
    EncodeSnoc([a, b, c, d, e], [a, b, c, d], x + y + z + u, v);
  }

  /** The five fields lie back to back in 76 bytes. */
  function HeaderBytes(h: Header): (s: seq<Byte>)
    ensures |s| == MAX_BLOCK_HEADER_PAYLOAD
    ensures s == ToLittleEndian(h.version, 4) + h.prevBlock + h.merkleRoot
               + ToLittleEndian(h.timestamp % TWO32, 4) + ToLittleEndian(h.bits, 4)
  {
    EncodeFive(Word32(h.version), Raw(h.prevBlock), Raw(h.merkleRoot), Word32(h.timestamp % TWO32), Word32(h.bits),
      ToLittleEndian(h.version, 4), h.prevBlock, h.merkleRoot, ToLittleEndian(h.timestamp % TWO32, 4), ToLittleEndian(h.bits, 4));
    EncodeAll(HeaderElements(h))
  }

  method WriteBlockHeader(l: FreeList, w: Writer, h: Header) returns (ok: bool)
    requires l.Valid()
    modifies l, w, l.Buffers()
    ensures l.Valid() && fresh(l.Buffers() - old(l.Buffers()))
    ensures w.contents == old(w.contents) + HeaderBytes(h)[..Taken(old(w.room), MAX_BLOCK_HEADER_PAYLOAD)]
    ensures ok <==> Taken(old(w.room), MAX_BLOCK_HEADER_PAYLOAD) == MAX_BLOCK_HEADER_PAYLOAD
  {
    var sec := h.timestamp % TWO32;
    ok := WriteElements(l, w, [Word32(h.version), Raw(h.prevBlock), Raw(h.merkleRoot), Word32(sec), Word32(h.bits)]);
  }

  datatype Parsed = Short | Parsed(header: Header, rest: seq<Byte>)

  /** The field-by-field inverse that the block reader performs. */
  function ParseHeader(s: seq<Byte>): Parsed {
    if |s| < MAX_BLOCK_HEADER_PAYLOAD then Short
    else
      LittleEndianFits(s[..4]);
      LittleEndianFits(s[68..72]);
      LittleEndianFits(s[72..76]);
      Parsed(Header(LittleEndian(s[..4]), s[4..36], s[36..68], LittleEndian(s[68..72]), LittleEndian(s[72..76])), s[76..])
  }

  lemma LittleEndianFits(s: seq<Byte>)
    requires |s| == 4
    ensures LittleEndian(s) < TWO32
  {
    LittleEndianBound(s);
    FourBytes();
  }

  lemma FourBytes()
    ensures Pow256(4) == TWO32
  {
    SmallPowers();
    assert Pow256(4) == 256 * ShiftLeft(1, 3);
  }

  lemma WordBack(v: nat)
    requires v < TWO32
    ensures LittleEndian(ToLittleEndian(v, 4)) == v
  {
    ReadBack(v, 4);
    FourBytes();
  }

  /** Reading back what was written recovers every field and leaves what follows; the
      timestamp comes back modulo 2^32. */
  lemma HeaderRoundTrip(h: Header, rest: seq<Byte>)
    ensures ParseHeader(HeaderBytes(h) + rest) == Parsed(h.(timestamp := h.timestamp % TWO32), rest)
  {
    WordBack(h.version);
    WordBack(h.timestamp % TWO32);
    WordBack(h.bits);
    FieldsOf(ToLittleEndian(h.version, 4), h.prevBlock, h.merkleRoot, ToLittleEndian(h.timestamp % TWO32, 4), ToLittleEndian(h.bits, 4), rest);
  }

  lemma FieldsOf(a: seq<Byte>, b: Hash, c: Hash, d: seq<Byte>, e: seq<Byte>, rest: seq<Byte>)
    requires |a| == |d| == |e| == 4
    ensures var s := a + b + c + d + e + rest;
            && s[..4] == a && s[4..36] == b && s[36..68] == c && s[68..72] == d && s[72..76] == e && s[76..] == rest
  {
  }

  /** The header itself comes back exactly when its time fits in 32 unsigned bits. */
  lemma HeaderRecoveredIff(h: Header, rest: seq<Byte>)
    ensures ParseHeader(HeaderBytes(h) + rest) == Parsed(h, rest) <==> 0 <= h.timestamp < TWO32
  {
    HeaderRoundTrip(h, rest);
  }

  /** Every 76 bytes are the encoding of the header they parse to. */
  lemma ParsedBytesRewritten(s: seq<Byte>)
    requires |s| >= MAX_BLOCK_HEADER_PAYLOAD
    ensures HeaderBytes(ParseHeader(s).header) == s[..MAX_BLOCK_HEADER_PAYLOAD]
  {
    var h := ParseHeader(s).header;
    LittleEndianFits(s[68..72]);
    WordRewritten(s[..4]);
    WordRewritten(s[68..72]);
    WordRewritten(s[72..76]);
    assert h.timestamp % TWO32 == LittleEndian(s[68..72]);
    Reassemble(s);
  }

  lemma WordRewritten(s: seq<Byte>)
    requires |s| == 4
    ensures ToLittleEndian(LittleEndian(s), 4) == s
  {
    WriteBack(s);
  }

  lemma Reassemble(s: seq<Byte>)
    requires |s| >= MAX_BLOCK_HEADER_PAYLOAD
    ensures s[..4] + s[4..36] + s[36..68] + s[68..72] + s[72..76] == s[..76]
  {
    assert s[..4] + s[4..36] == s[..36];
    assert s[..36] + s[36..68] == s[..68];
    assert s[..68] + s[68..72] == s[..72];
    assert s[..72] + s[72..76] == s[..76];
  }

  method ReadHash(r: Reader) returns (ok: bool, hash: Hash)
    modifies r
    ensures ok <==> HASH_SIZE <= |old(r.rest)|
    ensures ok ==> hash == old(r.rest)[..HASH_SIZE] && r.rest == old(r.rest)[HASH_SIZE..]
    ensures !ok ==> r.rest == []
  {
    var buf := new Byte[HASH_SIZE](_ => 0);
    ok := r.ReadFull(buf, HASH_SIZE);
    hash := buf[..];
  }

  /** readBlock: the fields in wire order, stopping at the first short read. */
  method ReadBlockHeader(l: FreeList, r: Reader) returns (ok: bool, h: Header)
    requires l.Valid()
    modifies l, r, l.Buffers()
    ensures l.Valid()
    ensures ok <==> ParseHeader(old(r.rest)).Parsed?
    ensures ok ==> ParseHeader(old(r.rest)) == Parsed(h, r.rest)
  {
    ghost var s := r.rest;
    var version, prevBlock, merkleRoot, timestamp, bits;
    h := Header(0, seq(HASH_SIZE, _ => 0), seq(HASH_SIZE, _ => 0), 0, 0);
    ok, version := l.ReadUint(r, 4);
    if !ok { return; }
    ok, prevBlock := ReadHash(r);
    if !ok { return; }
    ok, merkleRoot := ReadHash(r);
    if !ok { return; }
    assert r.rest == s[68..];
    ok, timestamp := l.ReadUint(r, 4);
    if !ok { return; }
    ok, bits := l.ReadUint(r, 4);
    if !ok { return; }
    LittleEndianFits(s[..4]);
    LittleEndianFits(s[72..76]);
    assert s[4..][..32] == s[4..36] && s[4..][32..][..32] == s[36..68];
    assert s[68..][..4] == s[68..72] && s[68..][4..][..4] == s[72..76] && s[68..][4..][4..] == s[76..];
    h := Header(version, prevBlock, merkleRoot, timestamp, bits);
  }

  /** BlockHash converts the 76 bytes written to a 32-byte array, which keeps the first 32. */
  function BlockHash(h: Header): Hash {
    HeaderBytes(h)[..HASH_SIZE]
  }

  /** So two headers have the same BlockHash exactly when they agree on the version and the
      first 28 bytes of the previous hash, whatever their other fields are. */
  lemma BlockHashCollidesIff(g: Header, h: Header)
    ensures BlockHash(g) == BlockHash(h) <==> g.version == h.version && g.prevBlock[..28] == h.prevBlock[..28]
  {
    WordBack(g.version);
    WordBack(h.version);
    assert BlockHash(g) == ToLittleEndian(g.version, 4) + g.prevBlock[..28];
    assert BlockHash(h) == ToLittleEndian(h.version, 4) + h.prevBlock[..28];
    if BlockHash(g) == BlockHash(h) {
      assert BlockHash(g)[..4] == ToLittleEndian(g.version, 4) && BlockHash(g)[4..] == g.prevBlock[..28];
      assert BlockHash(h)[..4] == ToLittleEndian(h.version, 4) && BlockHash(h)[4..] == h.prevBlock[..28];
    }
  }

  /** The value an eight-byte two's-complement field stands for. */
  function SignedValue(s: seq<Byte>): int
    requires |s| == 8
  {
    var v: int := LittleEndian(s);
    if v < 0x8000_0000_0000_0000 then v else v - 0x1_0000_0000_0000_0000
  }

  /** A signed 64-bit element survives the 32-bit conversion exactly when it is an unsigned
      32-bit number. */
  lemma Int64SurvivesIff(l: int)
    requires -0x8000_0000_0000_0000 <= l < 0x8000_0000_0000_0000
    ensures SignedValue(Encode(Int64(l))) == l <==> 0 <= l < TWO32
  {
    var v := l % TWO32;
    ReadBack(v, 8);
    FourBytes();
    LeftGrows(1, 4, 8);
    SmallRemainder(v, Pow256(8));
  }

  lemma SmallRemainder(v: nat, p: int)
    requires v < p
    ensures v % p == v
  {
  }
}
