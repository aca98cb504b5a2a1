/** Bytes, fixed-width words and their base-256 numerals; hashes and public keys as the byte
    strings they are compared as. */
module Bytes {
  import opened Shift

  type Byte = b: int | 0 <= b < 0x100
  type Uint32 = w: int | 0 <= w < 0x1_0000_0000
  type Uint64 = w: int | 0 <= w < 0x1_0000_0000_0000_0000
  type Id = seq<Byte>
  type Key = seq<Byte>

  function Min(a: int, b: int): int {
    if a <= b then a else b
  }

  lemma MulMono(a: int, b: int, p: nat)
    requires a <= b
    ensures a * p <= b * p
  {
  }

  /** The value q with q * d <= n < (q + 1) * d is the quotient. */
  lemma DivUnique(n: nat, d: nat, q: nat)
    requires d >= 1 && q * d <= n < (q + 1) * d
    ensures n / d == q
  {
    var r := n - q * d;
    assert n == q * d + r && 0 <= r < d;
    var q', r' := n / d, n % d;
    assert n == q' * d + r' && 0 <= r' < d;
    if q' < q {
      MulMono(q' + 1, q, d);
    } else if q < q' {
      MulMono(q + 1, q', d);
    }
  }

  /** The number whose least significant byte comes first. */
  function LittleEndian(s: seq<Byte>): (v: nat) {
    if s == [] then 0 else s[0] + 256 * LittleEndian(s[1..])
  }

  /** The number whose most significant byte comes first: Go's big.Int.SetBytes. */
  function BigEndian(s: seq<Byte>): (v: nat) {
    if s == [] then 0 else 256 * BigEndian(s[..|s| - 1]) + s[|s| - 1]
  }

  /** The low `width` bytes of v, least significant first. */
  function ToLittleEndian(v: nat, width: nat): (s: seq<Byte>)
    ensures |s| == width
  {
    if width == 0 then [] else [v % 256] + ToLittleEndian(v / 256, width - 1)
  }

  lemma {:induction false} LittleEndianBound(s: seq<Byte>)
    ensures LittleEndian(s) < Pow256(|s|)
  {
    if s != [] {
      LittleEndianBound(s[1..]);
    }
  }

  lemma SplitRemainder(v: nat, p: nat)
    requires p >= 1
    ensures v % 256 + 256 * ((v / 256) % p) == v % (256 * p)
  {
    var q, r := (v / 256) / p, (v / 256) % p;
    var low := v % 256 + 256 * r;
    assert v == q * (256 * p) + low by {
      assert v / 256 == q * p + r;
      assert q * (256 * p) == 256 * (q * p);
    }
    DivUnique(v, 256 * p, q);
  }

  /** Writing a number at a fixed width and reading it back keeps its low bytes. */
  lemma {:induction false} ReadBack(v: nat, width: nat)
    ensures LittleEndian(ToLittleEndian(v, width)) == v % Pow256(width)
  {
    if width > 0 {
      ReadBack(v / 256, width - 1);
      SplitRemainder(v, Pow256(width - 1));
      assert ToLittleEndian(v, width)[1..] == ToLittleEndian(v / 256, width - 1);
    }
  }

  lemma {:induction false} WriteBack(s: seq<Byte>)
    ensures ToLittleEndian(LittleEndian(s), |s|) == s
  {
    if s != [] {
      WriteBack(s[1..]);
      assert LittleEndian(s) % 256 == s[0] && LittleEndian(s) / 256 == LittleEndian(s[1..]);
      assert s == [s[0]] + s[1..];
    }
  }

  /** Byte i is the i-th digit, the least significant first. */
  lemma {:induction false} ByteAt(v: nat, width: nat, i: nat)
    requires i < width
    ensures ToLittleEndian(v, width)[i] == v / Pow256(i) % 0x100
  {
    SmallPowers();
    if i > 0 {
      ByteAt(v / 256, width - 1, i - 1);
      DigitShift(v, Pow256(i - 1));
    }
  }

  lemma DigitShift(v: nat, p: nat)
    requires p >= 1
    ensures v / 256 / p == v / (256 * p)
  {
    var q := v / 256 / p;
    var a := v / 256;
    assert v == 256 * a + v % 256 && a == q * p + a % p;
    Regroup(q, p, a % p, v % 256, v);
    DivUnique(v, 256 * p, q);
  }

  lemma Regroup(q: nat, p: nat, r: nat, t: nat, v: nat)
    requires r < p && t < 256 && v == 256 * (q * p + r) + t
    ensures q * (256 * p) <= v < (q + 1) * (256 * p)
  {
    assert q * (256 * p) == 256 * (q * p) && (q + 1) * (256 * p) == 256 * (q * p) + 256 * p;
  }

  function Reverse<T>(s: seq<T>): (r: seq<T>)
    ensures |r| == |s|
    ensures forall k :: 0 <= k < |s| ==> r[k] == s[|s| - 1 - k]
  {
    if s == [] then [] else Reverse(s[1..]) + [s[0]]
  }

  lemma {:induction false} BigEndianOfReverse(s: seq<Byte>)
    ensures BigEndian(Reverse(s)) == LittleEndian(s)
  {
    if s != [] {
      BigEndianOfReverse(s[1..]);
      assert Reverse(s)[..|s| - 1] == Reverse(s[1..]);
    }
  }
}
