/**
 * The Fisher-Yates shuffle that yields a random order of 0 ..< size. The random draws
 * are an input: draw k is the index chosen in [0, size - k) at step k.
 */
module UtilityFuncs {
  /** 0, 1, ..., n - 1. */
  function Iota(n: nat): (s: seq<int>)
    ensures |s| == n && forall i :: 0 <= i < n ==> s[i] == i
  {
    if n == 0 then [] else Iota(n - 1) + [n - 1]
  }

  /** s with the elements at i and j exchanged. */
  function Swap<T>(s: seq<T>, i: int, j: int): seq<T>
    requires 0 <= i < |s| && 0 <= j < |s|
  {
    s[i := s[j]][j := s[i]]
  }

  /** Draws a shuffle of size elements may take: draw k lies in [0, size - k). */
  predicate ValidDraws(size: nat, draws: seq<int>) {
    |draws| <= size && forall k :: 0 <= k < |draws| ==> 0 <= draws[k] < size - k
  }

  /** s after the steps for draws, where step k swaps position draws[k] with position |s| - k - 1. */
  function Shuffle<T>(s: seq<T>, draws: seq<int>): (r: seq<T>)
    requires ValidDraws(|s|, draws)
    ensures |r| == |s|
    decreases |draws|
  {
    if draws == [] then s
    else
      var k := |draws| - 1;
      Swap(Shuffle(s, draws[..k]), draws[k], |s| - k - 1)
  }

  /** Every step only exchanges two elements, so a shuffle rearranges its input. */
  lemma {:induction false} ShufflePermutes<T>(s: seq<T>, draws: seq<int>)
    requires ValidDraws(|s|, draws)
    ensures multiset(Shuffle(s, draws)) == multiset(s)
    decreases |draws|
  {
    if draws != [] {
      var k := |draws| - 1;
      var t := Shuffle(s, draws[..k]);
      ShufflePermutes(s, draws[..k]);
      var i, j := draws[k], |s| - k - 1;
      assert multiset(t[i := t[j]]) == multiset(t) - multiset{t[i]} + multiset{t[j]};
    }
  }

  /**
   * Step k touches only positions below |s| - k, so once j steps have run, positions
   * |s| - j and above keep their values through the remaining steps.
   */
  lemma {:induction false} ShuffleFixesTail<T>(s: seq<T>, draws: seq<int>, j: nat)
    requires ValidDraws(|s|, draws) && j <= |draws|
    ensures forall p :: |s| - j <= p < |s| ==> Shuffle(s, draws)[p] == Shuffle(s, draws[..j])[p]
    decreases |draws|
  {
    if j < |draws| {
      var k := |draws| - 1;
      ShuffleFixesTail(s, draws[..k], j);
      assert draws[..k][..j] == draws[..j];
    } else {
      assert draws[..j] == draws;
    }
  }

  /**
   * Shuffling any sequence moves its elements exactly as shuffling the positions
   * 0 ..< |s| does: element i of the result is s at position i of the shuffled order.
   */
  lemma {:induction false} ShuffleIsReindexing<T>(s: seq<T>, draws: seq<int>)
    requires ValidDraws(|s|, draws)
    ensures forall i :: 0 <= i < |s| ==> 0 <= Shuffle(Iota(|s|), draws)[i] < |s|
    ensures forall i :: 0 <= i < |s| ==> Shuffle(s, draws)[i] == s[Shuffle(Iota(|s|), draws)[i]]
    decreases |draws|
  {
    if draws != [] {
      var k := |draws| - 1;
      ShuffleIsReindexing(s, draws[..k]);
    }
  }

  /** 0 ..< n holds each of 0 ..< n once and nothing else. */
  lemma {:induction false} IotaCounts(n: nat)
    ensures forall v :: multiset(Iota(n))[v] == if 0 <= v < n then 1 else 0
  {
    if n > 0 {
      IotaCounts(n - 1);
      assert Iota(n) == Iota(n - 1) + [n - 1];
    }
  }

  /**
   * permutation(size:): fill 0 ..< size in order, then for each step swap the drawn
   * position with the last position not yet fixed. The result holds each of 0 ..< size
   * exactly once.
   */
  method Permutation(size: nat, draws: seq<int>) returns (order: seq<int>)
    requires |draws| == size && ValidDraws(size, draws)
    ensures order == Shuffle(Iota(size), draws)
    ensures |order| == size && forall v :: multiset(order)[v] == if 0 <= v < size then 1 else 0
  {
    order := [];
    for index := 0 to size
      invariant order == Iota(index)
    {
      order := order + [index];
    }
    for index := 0 to size
      invariant order == Shuffle(Iota(size), draws[..index])
    {
      var swapIndex := draws[index];
      var tmp := order[swapIndex];
      order := order[swapIndex := order[size - index - 1]];
      order := order[size - index - 1 := tmp];
      assert draws[..index + 1][..index] == draws[..index];
    }
    assert draws[..size] == draws;
    ShufflePermutes(Iota(size), draws);
    IotaCounts(size);
  }
}
