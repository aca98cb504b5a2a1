/** The private clock: a bounded window over the timestamps pushed so far, and the average
    step it measures. Taking the lock again in lockLen is modelled as a plain length read. */
module Clock {
  import opened Bytes

  function Last<T>(s: seq<T>, k: nat): seq<T>
    requires k <= |s|
  {
    s[|s| - k..]
  }

  /** How many entries one Push drops from a window of the given length: the loop bound is
      read again after every removal, so the counter and the length meet half way. */
  function Dropped(length: nat, size: int): nat {
    if length < size then 0 else (length - size) / 2 + 1
  }

  class PrivateClock {
    var window: seq<Uint64>
    const size: int

    constructor (size: int)
      ensures window == [] && this.size == size
    {
      this.size := size;
      window := [];
    }

    /** Removing the front of an empty list dereferences nil: `ok` is false then. */
    method Push(val: Uint64) returns (ok: bool)
      modifies this`window
      ensures ok <==> Dropped(|old(window)|, size) <= |old(window)|
      ensures ok ==> window == old(window)[Dropped(|old(window)|, size)..] + [val]
      ensures !ok ==> window == []
      ensures AfterPush(Holds(old(window)), size, val) == if ok then Holds(window) else Panicked
    {
      if |window| >= size {
        ghost var start := window;
        var i := 0;
        while i <= |window| - size
          invariant 0 <= i <= |start| && window == start[i..]
          invariant |start| - size - 2 * i >= -2
          decreases |start| - i
        {
          if window == [] {
            return false;
          }
          window := window[1..];
          i := i + 1;
        }
        assert i == Dropped(|start|, size);
      }
      window := window + [val];
      ok := true;
    }

    method Clock() returns (step: Uint64)
      ensures step == Step(window)
    {
      if |window| == 0 {
        return 0;
      }
      StepBound(window);
      step := Elapsed(window) % 0x1_0000_0000_0000_0000 / |window|;
    }
  }

  /** Back minus front. */
  function Elapsed(window: seq<Uint64>): int
    requires window != []
  {
    var back: int, front: int := window[|window| - 1], window[0];
    back - front
  }

  /** Unsigned subtraction wraps; the division truncates. */
  function Step(window: seq<Uint64>): nat {
    if window == [] then 0 else Elapsed(window) % 0x1_0000_0000_0000_0000 / |window|
  }

  lemma StepBound(window: seq<Uint64>)
    ensures Step(window) < 0x1_0000_0000_0000_0000
  {
    if window != [] {
      var n, k := Elapsed(window) % 0x1_0000_0000_0000_0000, |window|;
      assert n == n / k * k + n % k;
      if n / k > n { MulMono(n + 1, n / k, k); MulMono(1, k, n + 1); }
    }
  }

  /** The window after pushing all of `pushed`, or None once a push has failed. */
  datatype Window = Panicked | Holds(entries: seq<Uint64>)

  function AfterPush(window: Window, size: int, val: Uint64): Window {
    match window
    case Panicked => Panicked
    case Holds(w) =>
      var d := Dropped(|w|, size);
      if d <= |w| then Holds(w[d..] + [val]) else Panicked
  }

  function AfterPushes(pushed: seq<Uint64>, size: int): Window {
    if pushed == [] then Holds([])
    else AfterPush(AfterPushes(pushed[..|pushed| - 1], size), size, pushed[|pushed| - 1])
  }

  /** From a new clock of positive size the window is exactly the last values pushed, oldest
      first. */
  lemma {:induction false} WindowIsSuffix(pushed: seq<Uint64>, size: int)
    requires size >= 1
    ensures AfterPushes(pushed, size) == Holds(Last(pushed, Min(|pushed|, size)))
  {
    if pushed != [] {
      var before, val := pushed[..|pushed| - 1], pushed[|pushed| - 1];
      WindowIsSuffix(before, size);
      PushOnSuffix(before, size, val);
      assert pushed == before + [val];
    }
  }

  lemma PushOnSuffix(before: seq<Uint64>, size: int, val: Uint64)
    requires size >= 1
    ensures AfterPush(Holds(Last(before, Min(|before|, size))), size, val)
         == Holds(Last(before + [val], Min(|before| + 1, size)))
  {
    var w := Last(before, Min(|before|, size));
    if |w| < size {
      assert w == before;
      assert w + [val] == Last(before + [val], |before| + 1);
    } else {
      assert Dropped(|w|, size) == 1;
      assert w[1..] + [val] == Last(before + [val], size);
    }
  }

  /** A clock fails on some push exactly when its size is not positive and anything is pushed. */
  lemma {:induction false} FailsIff(pushed: seq<Uint64>, size: int)
    ensures AfterPushes(pushed, size).Panicked? <==> pushed != [] && size <= 0
  {
    if size >= 1 {
      WindowIsSuffix(pushed, size);
    } else if pushed != [] {
      FailsIff(pushed[..|pushed| - 1], size);
      if |pushed| == 1 {
        assert pushed[..0] == [];
      }
    }
  }

  /** Value i + 1 minus value i. */
  function Gap(s: seq<Uint64>, i: nat): int
    requires i + 1 < |s|
  {
    var next: int, current: int := s[i + 1], s[i];
    next - current
  }

  /** Successive values differ by at least a and at most b. */
  ghost predicate GapsWithin(s: seq<Uint64>, a: nat, b: nat) {
    forall i :: 0 <= i < |s| - 1 ==> a <= Gap(s, i) <= b
  }

  lemma TimesSucc(a: nat, n: nat)
    ensures a * (n + 1) == a * n + a
  {
  }

  lemma {:induction false} GapsAddUp(s: seq<Uint64>, a: nat, b: nat)
    requires s != [] && GapsWithin(s, a, b)
    ensures a * (|s| - 1) <= Elapsed(s) <= b * (|s| - 1)
  {
    if |s| > 1 {
      var n := |s| - 2;
      var front := s[..n + 1];
      assert forall i :: 0 <= i < |front| - 1 ==> Gap(front, i) == Gap(s, i);
      GapsAddUp(front, a, b);
      TimesSucc(a, n);
      TimesSucc(b, n);
      assert a <= Gap(s, n) <= b;
      assert Elapsed(s) == Elapsed(front) + Gap(s, n);
    }
  }

  lemma GapsOfSuffix(s: seq<Uint64>, k: nat, a: nat, b: nat)
    requires k <= |s| && GapsWithin(s, a, b)
    ensures GapsWithin(Last(s, k), a, b)
  {
    var w := Last(s, k);
    forall i | 0 <= i < |w| - 1 ensures a <= Gap(w, i) <= b {
      assert Gap(w, i) == Gap(s, |s| - k + i);
    }
  }

  lemma DivMono(x: nat, y: nat, k: nat)
    requires x <= y && k >= 1
    ensures x / k <= y / k
  {
    var q, r := x / k, y / k;
    assert x == q * k + x % k && y == r * k + y % k;
    if r < q {
      MulMono(r + 1, q, k);
    }
  }

  lemma ProductNat(a: nat, n: nat)
    ensures a * n >= 0
  {
  }

  lemma NoWrap(e: int)
    requires 0 <= e < 0x1_0000_0000_0000_0000
    ensures e % 0x1_0000_0000_0000_0000 == e
  {
  }

  lemma QuotientsWithin(lo: nat, x: nat, hi: nat, k: nat)
    requires lo <= x <= hi && k >= 1
    ensures lo / k <= x / k <= hi / k
  {
    DivMono(lo, x, k);
    DivMono(x, hi, k);
  }

  /** On every window, in order or not: newest minus oldest, plus 2^64 when the newest is the
      smaller one, over the number of values. */
  lemma StepOfWindow(w: seq<Uint64>)
    ensures w == [] ==> Step(w) == 0
    ensures w != [] && w[0] <= w[|w| - 1] ==> Step(w) == (w[|w| - 1] - w[0]) / |w|
    ensures w != [] && w[0] > w[|w| - 1] ==> Step(w) == (0x1_0000_0000_0000_0000 + w[|w| - 1] - w[0]) / |w|
  {
    if w != [] && w[0] <= w[|w| - 1] {
      NoWrap(Elapsed(w));
    } else if w != [] {
      NoWrap(Elapsed(w) + 0x1_0000_0000_0000_0000);
    }
  }

  lemma StepOfGaps(w: seq<Uint64>, k: nat, a: nat, b: nat)
    requires |w| == k >= 1 && GapsWithin(w, a, b)
    ensures w[0] <= w[k - 1] && Step(w) == (w[k - 1] - w[0]) / k
    ensures a * (k - 1) / k <= Step(w) <= b * (k - 1) / k
  {
    var e := Elapsed(w);
    GapsAddUp(w, a, b);
    ProductNat(a, k - 1);
    NoWrap(e);
    var lo, hi := a * (k - 1), b * (k - 1);
    QuotientsWithin(lo, e, hi, k);
  }

  /** With values pushed at gaps between a and b the subtraction never wraps, and the reported
      step lies between a (k - 1) / k and b (k - 1) / k for a window of k entries. */
  lemma StepBounds(pushed: seq<Uint64>, size: int, a: nat, b: nat) returns (w: seq<Uint64>, k: nat)
    requires size >= 1 && pushed != [] && GapsWithin(pushed, a, b)
    ensures k == Min(|pushed|, size) && w == Last(pushed, k) && AfterPushes(pushed, size) == Holds(w)
    ensures w[0] <= w[k - 1] && Step(w) == (w[k - 1] - w[0]) / k
    ensures a * (k - 1) / k <= Step(w) <= b * (k - 1) / k
  {
    k := Min(|pushed|, size);
    WindowIsSuffix(pushed, size);
    GapsOfSuffix(pushed, k, a, b);
    w := Last(pushed, k);
    StepOfGaps(w, k, a, b);
  }

  /** The window of k values spans k - 1 gaps but is divided by k: for values exactly g apart
      the clock reports g only when g is zero. */
  lemma ExactGapReportedIff(pushed: seq<Uint64>, size: int, g: nat)
    requires size >= 1 && pushed != [] && GapsWithin(pushed, g, g)
    ensures Step(Last(pushed, Min(|pushed|, size))) == g <==> g == 0
  {
    var w, k := StepBounds(pushed, size, g, g);
    BelowOneGap(g, k);
  }

  lemma BelowOneGap(g: nat, k: nat)
    requires k >= 1
    ensures g * (k - 1) / k == g <==> g == 0
  {
    var q := g * (k - 1) / k;
    assert g * (k - 1) == g * k - g;
    assert g * (k - 1) == q * k + g * (k - 1) % k;
  }
}
