/** Reading a digest as a number and printing it. Digests are little-endian numerals;
    HashToBig reverses the caller's own bytes because it copies only the slice header, and
    HashString reverses a copy because the receiver is a Go array. */
module HashBytes {
  import opened Bytes

  const HASH_SIZE := 32

  lemma {:induction false} ReverseTwice<T>(s: seq<T>)
    ensures Reverse(Reverse(s)) == s
  {
  }

  method ReverseInPlace(buf: array<Byte>)
    modifies buf
    ensures buf[..] == Reverse(old(buf[..]))
  {
    var blen := buf.Length;
    var i := 0;
    while i < blen / 2
      invariant 0 <= i <= blen / 2
      invariant forall k :: 0 <= k < i ==> buf[k] == old(buf[blen - 1 - k]) && buf[blen - 1 - k] == old(buf[k])
      invariant forall k :: i <= k < blen - i ==> buf[k] == old(buf[k])
    {
      buf[i], buf[blen - 1 - i] := buf[blen - 1 - i], buf[i];
      i := i + 1;
    }
  }

  method HashToBig(hash: array<Byte>) returns (value: nat)
    modifies hash
    ensures value == LittleEndian(old(hash[..]))
    ensures value == BigEndian(hash[..])
    ensures hash[..] == Reverse(old(hash[..]))
  {
    ghost var bytes := hash[..];
    ReverseInPlace(hash);
    BigEndianOfReverse(bytes);
    value := BigEndian(hash[..]);
  }

  /** A second call restores the bytes, and its value is that of the reversed numeral. */
  method HashToBigTwice(hash: array<Byte>) returns (first: nat, second: nat)
    modifies hash
    ensures hash[..] == old(hash[..])
    ensures first == LittleEndian(hash[..]) && second == BigEndian(hash[..])
  {
    ghost var bytes := hash[..];
    first := HashToBig(hash);
    second := HashToBig(hash);
    ReverseTwice(bytes);
  }

  /** The two calls agree exactly on palindromes: HashToBig is not a pure reading. */
  lemma ReadingsAgreeIff(s: seq<Byte>)
    ensures LittleEndian(s) == BigEndian(s) <==> s == Reverse(s)
  {
    BigEndianOfReverse(Reverse(s));
    ReverseTwice(s);
    BigEndianOfReverse(s);
    if LittleEndian(s) == BigEndian(s) {
      assert LittleEndian(Reverse(s)) == BigEndian(s);
      WriteBack(s);
      WriteBack(Reverse(s));
    }
  }

  function HexDigit(d: nat): char
    requires d < 16
  {
    "0123456789abcdef"[d]
  }

  /** Go's hex.EncodeToString: two digits a byte, high nibble first. */
  function HexEncode(s: seq<Byte>): (h: string)
    ensures |h| == 2 * |s|
  {
    if s == [] then "" else [HexDigit(s[0] / 16), HexDigit(s[0] % 16)] + HexEncode(s[1..])
  }

  function DigitValue(c: char): nat {
    if '0' <= c <= '9' then (c - '0') as nat
    else if 'a' <= c <= 'f' then (c - 'a') as nat + 10
    else 0
  }

  /** The number a hexadecimal numeral denotes. */
  function HexValue(h: string): nat {
    if h == "" then 0 else 16 * HexValue(h[..|h| - 1]) + DigitValue(h[|h| - 1])
  }

  lemma HexDigitValue(d: nat)
    requires d < 16
    ensures DigitValue(HexDigit(d)) == d
  {
    assert "0123456789abcdef"[d] == if d < 10 then '0' + d as char else 'a' + (d - 10) as char;
  }

  lemma {:induction false} HexEncodeAppend(s: seq<Byte>, b: Byte)
    ensures HexEncode(s + [b]) == HexEncode(s) + [HexDigit(b / 16), HexDigit(b % 16)]
  {
    if s == [] {
      assert s + [b] == [b];
      assert HexEncode([b]) == [HexDigit(b / 16), HexDigit(b % 16)] + HexEncode([]);
    } else {
      HexEncodeAppend(s[1..], b);
      assert (s + [b])[1..] == s[1..] + [b];
    }
  }

  /** The hexadecimal numeral of the bytes denotes their big-endian value. */
  lemma {:induction false} HexValueOfEncode(s: seq<Byte>)
    ensures HexValue(HexEncode(s)) == BigEndian(s)
  {
    if s != [] {
      var front, b := s[..|s| - 1], s[|s| - 1];
      assert s == front + [b];
      HexEncodeAppend(front, b);
      HexValueOfEncode(front);
      var h := HexEncode(s);
      var h' := h[..|h| - 1];
      assert h'[..|h'| - 1] == HexEncode(front);
      HexDigitValue(b / 16);
      HexDigitValue(b % 16);
      assert HexValue(h') == 16 * HexValue(HexEncode(front)) + b / 16;
      assert b == 16 * (b / 16) + b % 16;
    }
  }

  /** Hash.String: the caller's bytes stay, and the digits denote the number HashToBig reads. */
  method HashString(hash: array<Byte>) returns (s: string)
    requires hash.Length == HASH_SIZE
    ensures |s| == 2 * HASH_SIZE
    ensures HexValue(s) == LittleEndian(hash[..])
    ensures s == HexEncode(Reverse(hash[..]))
  {
    var copied := new Byte[HASH_SIZE](i requires 0 <= i < HASH_SIZE == hash.Length reads hash => hash[i]);
    assert copied[..] == hash[..];
    ReverseInPlace(copied);
    s := HexEncode(copied[..]);
    BigEndianOfReverse(hash[..]);
    HexValueOfEncode(copied[..]);
  }
}
