/**
 Key enhancement (`enhanceText`).

 The short key is appended to a species name fetched from a remote API, and
 the resulting bytes are shuffled in place by pairwise swaps. The fetch and
 the shuffle's random choices are not modelled: the name is a parameter, and
 the shuffle is the list of swaps it performs, each on two in-range
 positions. Every character of a `string` here stands for one byte.
 */
module Enhancer {

  /** One call of the shuffle's swap callback: exchange positions `i` and `j`. */
  datatype Swap = Swap(i: int, j: int)

  /** Every swap addresses positions of a buffer of length `n`. */
  predicate InRange(swaps: seq<Swap>, n: int) {
    forall k :: 0 <= k < |swaps| ==> 0 <= swaps[k].i < n && 0 <= swaps[k].j < n
  }

  /** The calls a Fisher-Yates shuffle of `n` elements, as `rand.Shuffle`
      performs it, makes to its swap callback: `swap(i, j)` for `i` from
      `n - 1` down to 1, each with `0 <= j <= i`. */
  predicate ShuffleCalls(swaps: seq<Swap>, n: int) {
    && |swaps| == (if n > 1 then n - 1 else 0)
    && forall k :: 0 <= k < |swaps| ==> swaps[k].i == n - 1 - k && 0 <= swaps[k].j <= swaps[k].i
  }

  /** The shuffle's calls are among the in-range swap lists the model allows. */
  lemma ShuffleCallsInRange(swaps: seq<Swap>, n: int)
    requires ShuffleCalls(swaps, n)
    ensures InRange(swaps, n)
  {
  }

  /** The buffer after exchanging positions `i` and `j`. */
  function SwapAt(b: string, i: int, j: int): (r: string)
    requires 0 <= i < |b| && 0 <= j < |b|
    ensures |r| == |b| && multiset(r) == multiset(b)
    ensures r[i] == b[j] && r[j] == b[i]
    ensures forall k :: 0 <= k < |b| && k != i && k != j ==> r[k] == b[k]
  {
    b[i := b[j]][j := b[i]]
  }

  /** The buffer after performing the swaps in order. */
  function Shuffled(b: string, swaps: seq<Swap>): (r: string)
    requires InRange(swaps, |b|)
    ensures |r| == |b|
    ensures multiset(r) == multiset(b)
    decreases |swaps|
  {
    if swaps == [] then b
    else
      var last := swaps[|swaps| - 1];
      SwapAt(Shuffled(b, swaps[..|swaps| - 1]), last.i, last.j)
  }

  /** The swaps in the opposite order. */
  function Reverse(swaps: seq<Swap>): (r: seq<Swap>)
    ensures |r| == |swaps|
    ensures forall k :: 0 <= k < |swaps| ==> r[k] == swaps[|swaps| - 1 - k]
  {
    if swaps == [] then [] else [swaps[|swaps| - 1]] + Reverse(swaps[..|swaps| - 1])
  }

  /** Shuffling by `s` and then by `t` is shuffling by `s + t`. */
  lemma {:induction false} ShuffledAppend(b: string, s: seq<Swap>, t: seq<Swap>)
    requires InRange(s, |b|) && InRange(t, |b|)
    ensures InRange(s + t, |b|)
    ensures Shuffled(b, s + t) == Shuffled(Shuffled(b, s), t)
    decreases |t|
  {
    if t == [] {
      assert s + t == s;
    } else {
      var front := t[..|t| - 1];
      ShuffledAppend(b, s, front);
      assert (s + t)[..|s + t| - 1] == s + front;
    }
  }

  /** Shuffling by one swap is that swap. */
  lemma ShuffledOne(b: string, s: Swap)
    requires 0 <= s.i < |b| && 0 <= s.j < |b|
    ensures Shuffled(b, [s]) == SwapAt(b, s.i, s.j)
  {
    assert [s][..0] == [];
  }

  /** Swaps that exchange a position with itself leave the buffer as it is. */
  lemma {:induction false} ShuffledIdle(b: string, swaps: seq<Swap>)
    requires InRange(swaps, |b|)
    requires forall k :: 0 <= k < |swaps| ==> swaps[k].i == swaps[k].j
    ensures Shuffled(b, swaps) == b
    decreases |swaps|
  {
    if swaps != [] {
      ShuffledIdle(b, swaps[..|swaps| - 1]);
    }
  }

  /** Seven calls of the shuffle's shape on an 8-byte buffer whose first six
      exchange a position with itself: only the last call, at position 1,
      moves anything. */
  lemma IdleThenLast(b: string, idle: seq<Swap>, last: Swap)
    requires |b| == 8
    requires |idle| == 6 && forall k :: 0 <= k < 6 ==> idle[k] == Swap(7 - k, 7 - k)
    requires last.i == 1 && 0 <= last.j <= 1
    ensures ShuffleCalls(idle + [last], 8)
    ensures InRange(idle + [last], 8)
    ensures last.j == 1 ==> Shuffled(b, idle + [last]) == b
    ensures last.j == 0 ==> Shuffled(b, idle + [last]) == SwapAt(b, 0, 1)
  {
    var sw := idle + [last];
    assert sw[..6] == idle;
    ShuffledIdle(b, idle);
    SwapAtSymmetric(b, 1, last.j);
  }

  /** A swap is symmetric in its two positions, and a swap of a position
      with itself changes nothing. */
  lemma SwapAtSymmetric(b: string, i: int, j: int)
    requires 0 <= i < |b| && 0 <= j < |b|
    ensures SwapAt(b, i, j) == SwapAt(b, j, i)
    ensures SwapAt(b, i, i) == b
  {
  }

  /** A swap undoes itself. */
  lemma SwapAtTwice(b: string, i: int, j: int)
    requires 0 <= i < |b| && 0 <= j < |b|
    ensures SwapAt(SwapAt(b, i, j), i, j) == b
  {
  }

  /** Replaying the swaps backwards restores the buffer: the shuffle only
      rearranges positions and loses nothing. */
  lemma {:induction false} ShuffledReverse(b: string, swaps: seq<Swap>)
    requires InRange(swaps, |b|)
    ensures InRange(Reverse(swaps), |b|)
    ensures Shuffled(Shuffled(b, swaps), Reverse(swaps)) == b
    decreases |swaps|
  {
    if swaps != [] {
      var front := swaps[..|swaps| - 1];
      var last := swaps[|swaps| - 1];
      var c := Shuffled(b, front);
      ShuffledReverse(b, front);
      ShuffledAppend(Shuffled(b, swaps), [last], Reverse(front));
      assert Reverse(swaps) == [last] + Reverse(front);
      assert [last][..0] == [];
      SwapAtTwice(c, last.i, last.j);
    }
  }

  /** The shuffle loop: the swap callback exchanges two bytes of the buffer
      in place, once per swap. */
  method Shuffle(b: string, swaps: seq<Swap>) returns (r: string)
    requires InRange(swaps, |b|)
    ensures r == Shuffled(b, swaps)
    ensures multiset(r) == multiset(b)
  {
    var a := new char[|b|](k requires 0 <= k < |b| => b[k]);
    var n := 0;
    while n < |swaps|
      invariant 0 <= n <= |swaps|
      invariant a.Length == |b|
      invariant a[..] == Shuffled(b, swaps[..n])
      invariant multiset(a[..]) == multiset(b)
    {
      assert swaps[..n + 1][..n] == swaps[..n];
      var s := swaps[n];
      ghost var before := a[..];
      a[s.i], a[s.j] := a[s.j], a[s.i];
      assert a[..] == SwapAt(before, s.i, s.j);
      n := n + 1;
    }
    assert swaps[..n] == swaps;
    r := a[..];
  }

  /** The enhanced key: the name followed by the text, shuffled. */
  function EnhanceText(name: string, text: string, swaps: seq<Swap>): (r: string)
    requires InRange(swaps, |name| + |text|)
    ensures |r| == |name| + |text|
    ensures multiset(r) == multiset(name) + multiset(text)
  {
    Shuffled(name + text, swaps)
  }

  /** Knowing the swaps, the concatenation is recovered from the enhanced key. */
  lemma EnhanceTextReversible(name: string, text: string, swaps: seq<Swap>)
    requires InRange(swaps, |name| + |text|)
    ensures InRange(Reverse(swaps), |name| + |text|)
    ensures Shuffled(EnhanceText(name, text, swaps), Reverse(swaps)) == name + text
  {
    ShuffledReverse(name + text, swaps);
  }
}
