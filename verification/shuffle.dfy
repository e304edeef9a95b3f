/** `shuffleArray` (src/App.tsx:104-111): Fisher-Yates on a copy of the array.
    `Math.floor(Math.random() * (i + 1))` becomes an injected chooser that
    yields, for each step `i`, a swap index in `[0, i]`. */
module Shuffle {

  /** A source of swap indices: step `i` swaps with index `choose(i) <= i`. */
  type Chooser = f: nat -> nat | forall i :: f(i) <= i witness (i: nat) => 0

  /** The destructuring swap `[a[i], a[j]] = [a[j], a[i]]`. */
  function Swap<T>(a: seq<T>, i: nat, j: nat): (r: seq<T>)
    requires i < |a| && j < |a|
    ensures |r| == |a| && r[i] == a[j] && r[j] == a[i]
    ensures forall k :: 0 <= k < |a| && k != i && k != j ==> r[k] == a[k]
  {
    a[i := a[j]][j := a[i]]
  }

  lemma SwapPermutes<T>(a: seq<T>, i: nat, j: nat)
    requires i < |a| && j < |a|
    ensures multiset(Swap(a, i, j)) == multiset(a)
  {
  }

  /** The loop from step `i` down to step 1. */
  function ShuffleFrom<T>(a: seq<T>, i: nat, choose: Chooser): (r: seq<T>)
    requires i < |a|
    ensures |r| == |a|
    decreases i
  {
    if i == 0 then a else ShuffleFrom(Swap(a, i, choose(i)), i - 1, choose)
  }

  /** The whole shuffle; an empty array skips the loop. */
  function Shuffled<T>(a: seq<T>, choose: Chooser): (r: seq<T>)
    ensures |r| == |a|
  {
    if |a| == 0 then a else ShuffleFrom(a, |a| - 1, choose)
  }

  lemma {:induction false} ShuffleFromPermutes<T>(a: seq<T>, i: nat, choose: Chooser)
    requires i < |a|
    ensures multiset(ShuffleFrom(a, i, choose)) == multiset(a)
    decreases i
  {
    if i > 0 {
      var j := choose(i);
      var b := Swap(a, i, j);
      ShuffleFromPermutes(b, i - 1, choose);
      SwapPermutes(a, i, j);
    }
  }

  /** The shuffle is a permutation: same length, same elements with the same
      multiplicities, whatever the chooser yields. */
  lemma ShufflePermutes<T>(a: seq<T>, choose: Chooser)
    ensures |Shuffled(a, choose)| == |a|
    ensures multiset(Shuffled(a, choose)) == multiset(a)
  {
    if |a| > 0 {
      assert Shuffled(a, choose) == ShuffleFrom(a, |a| - 1, choose);
      ShuffleFromPermutes(a, |a| - 1, choose);
    }
  }

  /** Steps `i` down to 1 never touch positions above `i`. */
  lemma {:induction false} ShuffleFromKeepsTail<T>(a: seq<T>, i: nat, choose: Chooser)
    requires i < |a|
    ensures forall k :: i < k < |a| ==> ShuffleFrom(a, i, choose)[k] == a[k]
    decreases i
  {
    if i > 0 {
      var b := Swap(a, i, choose(i));
      ShuffleFromKeepsTail(b, i - 1, choose);
    }
  }

  /** The last slot is settled by the first step: it receives the element at
      the first index drawn, and no later step moves it. */
  lemma LastSlotIsFirstDraw<T>(a: seq<T>, choose: Chooser)
    requires |a| > 0
    ensures Shuffled(a, choose)[|a| - 1] == a[choose(|a| - 1)]
  {
    var n := |a|;
    if n > 1 {
      var j := choose(n - 1);
      var b := Swap(a, n - 1, j);
      assert Shuffled(a, choose) == ShuffleFrom(a, n - 1, choose);
      assert ShuffleFrom(a, n - 1, choose) == ShuffleFrom(b, n - 2, choose);
      ShuffleFromKeepsTail(b, n - 2, choose);
      assert ShuffleFrom(b, n - 2, choose)[n - 1] == b[n - 1];
    } else {
      assert Shuffled(a, choose) == a;
    }
  }

  /** The chooser that always draws `i` itself. */
  const KeepInPlace: Chooser := (i: nat) => i

  /** When every draw is the step's own index each swap is a no-op, so all
      reordering comes from the chooser. */
  lemma {:induction false} SelfSwapsKeepOrder<T>(a: seq<T>, i: nat)
    requires i < |a|
    ensures ShuffleFrom(a, i, KeepInPlace) == a
    decreases i
  {
    if i > 0 {
      assert KeepInPlace(i) == i;
      assert Swap(a, i, i) == a;
      assert ShuffleFrom(a, i, KeepInPlace) == ShuffleFrom(a, i - 1, KeepInPlace);
      SelfSwapsKeepOrder(a, i - 1);
    }
  }

  /** `shuffleArray`: runs the Fisher-Yates loop on a copy of its argument,
      which therefore stays as it was; the copy is a sequence value here. */
  method ShuffleArray<T>(a: seq<T>, choose: Chooser) returns (r: seq<T>)
    ensures r == Shuffled(a, choose)
    ensures |r| == |a| && multiset(r) == multiset(a)
  {
    r := a;
    if |a| == 0 {
      return;
    }
    var i: nat := |a| - 1;
    while i > 0
      invariant i < |r| == |a|
      invariant ShuffleFrom(r, i, choose) == Shuffled(a, choose)
      decreases i
    {
      var j := choose(i);
      r := Swap(r, i, j);
      i := i - 1;
    }
    ShufflePermutes(a, choose);
  }
}
