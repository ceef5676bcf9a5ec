/** Weighted selection of internal/packlab/engine.go:650-671. */
module WeightedIndex {
  const TWO63 := 0x8000_0000_0000_0000

  const TWO64 := 0x1_0000_0000_0000_0000

  /** Two's-complement wrap-around of a Go int64. */
  function Wrap64(x: int): int {
    (x + TWO63) % TWO64 - TWO63
  }

  /** A random generator: the values it will return, whatever they are, and how many were taken. */
  class Rng {
    const source: nat -> nat
    var next: nat

    constructor (source: nat -> nat)
      ensures this.source == source && next == 0
    {
      this.source, next := source, 0;
    }

    method Below(n: int) returns (v: int)
      requires n > 0
      modifies this
      ensures next == old(next) + 1 && v == source(old(next)) % n
      ensures 0 <= v < n
    {
      v := source(next) % n;
      next := next + 1;
    }
  }

  function Weight(w: int): nat {
    if w > 0 then w else 0
  }

  /** The positive weight in front of index `i`. */
  function Before(weights: seq<int>, i: nat): nat
    requires i <= |weights|
  {
    if i == 0 then 0 else Before(weights, i - 1) + Weight(weights[i - 1])
  }

  function Total(weights: seq<int>): nat {
    Before(weights, |weights|)
  }

  /** The total as the source adds it up, which is exact as long as it fits an int64. */
  function Drawn(weights: seq<int>): int {
    Wrap64(Total(weights))
  }

  predicate Chosen(weights: seq<int>, v: int, i: int) {
    0 <= i < |weights| && Before(weights, i) <= v < Before(weights, i + 1)
  }

  lemma {:induction false} BeforeGrows(weights: seq<int>, i: nat, j: nat)
    requires i <= j <= |weights|
    ensures Before(weights, i) <= Before(weights, j)
    decreases j - i
  {
    if i < j {
      BeforeGrows(weights, i, j - 1);
    }
  }

  lemma SomeIndexExists(weights: seq<int>, v: nat)
    requires v < Total(weights)
    ensures exists i :: Chosen(weights, v, i)
  {
    var i := SomeIndexIsChosen(weights, v);
  }

  /** The index a seed chooses, and the place in its stream of values after that. */
  ghost function PickOf(source: nat -> nat, at: nat, weights: seq<int>): (picked: (int, nat))
    ensures weights != [] ==> 0 <= picked.0 < |weights|
  {
    if Drawn(weights) <= 0 then (0, at) else
      SomeIndexExists(weights, source(at) % Drawn(weights));
      var i :| Chosen(weights, source(at) % Drawn(weights), i);
      (i, at + 1)
  }

  /** Adding up with wrap-around wraps the sum once, and never above it. */
  lemma WrapOnce(x: nat, w: nat)
    ensures Wrap64(Wrap64(x) + w) == Wrap64(x + w) && Wrap64(x) <= x && Wrap64(0) == 0
  {
  }

  method AddUp(weights: seq<int>) returns (total: int)
    ensures total == Drawn(weights) <= Total(weights)
  {
    hide Wrap64;
    total := 0;
    WrapOnce(0, 0);
    for i := 0 to |weights|
      invariant total == Wrap64(Before(weights, i))
    {
      if weights[i] > 0 {
        WrapOnce(Before(weights, i), weights[i]);
        total := Wrap64(total + weights[i]);
      }
    }
    WrapOnce(Total(weights), 0);
  }

  /** Walks to the interval that holds the value; it never falls off the end. */
  method Locate(weights: seq<int>, drawn: nat) returns (index: int)
    requires drawn < Total(weights)
    ensures Chosen(weights, drawn, index)
  {
    var value: int := drawn;
    for i := 0 to |weights|
      invariant value == drawn - Before(weights, i) >= 0
    {
      if weights[i] <= 0 {
        continue;
      }
      if value < weights[i] {
        return i;
      }
      value := value - weights[i];
    }
    assert false;
    return |weights| - 1;
  }

  /** Even a wrapped total stays below the true one, so the second loop always finds its index. */
  method Pick(rng: Rng, weights: seq<int>) returns (index: int)
    modifies rng
    ensures weights != [] ==> 0 <= index < |weights|
    ensures Drawn(weights) <= 0 ==> index == 0 && rng.next == old(rng.next)
    ensures Drawn(weights) > 0 ==> rng.next == old(rng.next) + 1
                                   && Chosen(weights, rng.source(old(rng.next)) % Drawn(weights), index)
    ensures (index, rng.next) == PickOf(rng.source, old(rng.next), weights)
  {
    hide Wrap64, Before;
    var total := AddUp(weights);
    if total <= 0 {
      return 0;
    }
    var value := rng.Below(total);
    index := Locate(weights, value);
    ChoiceIsPicked(rng.source, old(rng.next), weights, index);
  }

  // ---------------------------------------------------------------- the distribution

  lemma {:induction false} SomeIndexIsChosen(weights: seq<int>, v: nat) returns (i: nat)
    requires v < Total(weights)
    ensures Chosen(weights, v, i)
  {
    i := 0;
    while Before(weights, i + 1) <= v
      invariant i < |weights| && Before(weights, i) <= v
      decreases |weights| - i
    {
      i := i + 1;
    }
  }

  /** One value chooses one index, and never one without positive weight. */
  lemma ChosenIsUnique(weights: seq<int>, v: int, i: int, j: int)
    requires Chosen(weights, v, i) && Chosen(weights, v, j)
    ensures i == j && weights[i] > 0
  {
    if i < j {
      BeforeGrows(weights, i + 1, j);
    } else if j < i {
      BeforeGrows(weights, j + 1, i);
    }
  }

  lemma ChoiceIsPicked(source: nat -> nat, at: nat, weights: seq<int>, i: int)
    requires Drawn(weights) > 0 && Chosen(weights, source(at) % Drawn(weights), i)
    ensures PickOf(source, at, weights) == (i, at + 1)
  {
    ChosenIsUnique(weights, source(at) % Drawn(weights), i, PickOf(source, at, weights).0);
  }

  /** Some value chooses this index. */
  predicate Reachable(weights: seq<int>, i: int) {
    0 <= i < |weights| && if Drawn(weights) <= 0 then i == 0 else weights[i] > 0 && Before(weights, i) < Drawn(weights)
  }

  lemma PickIsReachable(source: nat -> nat, at: nat, weights: seq<int>)
    requires weights != []
    ensures Reachable(weights, PickOf(source, at, weights).0)
  {
    if Drawn(weights) > 0 {
      var i := PickOf(source, at, weights).0;
      ChosenIsUnique(weights, source(at) % Drawn(weights), i, i);
    }
  }

  /** Two streams that agree on every place before `upto`. */
  ghost predicate Agree(source: nat -> nat, other: nat -> nat, upto: nat) {
    forall k: nat :: k < upto ==> source(k) == other(k)
  }

  lemma SmallRemainder(x: nat, n: nat)
    requires x < n
    ensures x % n == x
  {
  }

  /** Changing one place of a stream can steer a pick to any reachable index. */
  lemma SteerPick(source: nat -> nat, at: nat, weights: seq<int>, i: nat) returns (other: nat -> nat)
    requires Reachable(weights, i)
    ensures Agree(source, other, at) && PickOf(other, at, weights).0 == i
  {
    var value := Before(weights, i);
    other := (k: nat) => if k == at then value else source(k);
    if Drawn(weights) > 0 {
      assert value % Drawn(weights) == value by {
        SmallRemainder(value, Drawn(weights));
      }
      assert Chosen(weights, value, i);
      ChoiceIsPicked(other, at, weights, i);
    }
  }

  /** A pick reads nothing from the place on where it stops. */
  lemma PickIsLocal(source: nat -> nat, other: nat -> nat, at: nat, weights: seq<int>)
    requires Agree(source, other, PickOf(source, at, weights).1)
    ensures PickOf(other, at, weights) == PickOf(source, at, weights) && PickOf(source, at, weights).1 >= at
  {
    if Drawn(weights) > 0 {
      assert source(at) == other(at);
      ChoiceIsPicked(other, at, weights, PickOf(source, at, weights).0);
    }
  }

  predicate Between(lo: int, v: int, hi: int) {
    lo <= v < hi
  }

  ghost function Interval(lo: int, hi: int): set<int> {
    set v | lo <= v < hi && Between(lo, v, hi)
  }

  lemma {:induction false} IntervalSize(lo: int, hi: int)
    requires lo <= hi
    ensures |Interval(lo, hi)| == hi - lo
    decreases hi - lo
  {
    if lo == hi {
      assert Interval(lo, hi) == {};
    } else {
      IntervalSize(lo, hi - 1);
      assert Interval(lo, hi) == Interval(lo, hi - 1) + {hi - 1};
    }
  }

  /** How many of the values drawn below the total choose index `i`. */
  ghost function Hits(weights: seq<int>, i: int): nat {
    |set v | 0 <= v < Drawn(weights) && Chosen(weights, v, i)|
  }

  lemma HitsAreAnInterval(weights: seq<int>, i: nat)
    requires i < |weights|
    ensures Hits(weights, i) ==
            if Drawn(weights) <= Before(weights, i) then 0
            else if Drawn(weights) <= Before(weights, i + 1) then Drawn(weights) - Before(weights, i)
            else Weight(weights[i])
  {
    var lo, hi := Before(weights, i), Before(weights, i + 1);
    var top := if Drawn(weights) < hi then Drawn(weights) else hi;
    var hits := set v | 0 <= v < Drawn(weights) && Chosen(weights, v, i);
    if lo < top {
      assert hits == Interval(lo, top);
      IntervalSize(lo, top);
    } else {
      assert hits == {};
    }
  }

  /** Every index is chosen by exactly its share of the values if and only if the weights add up within
      an int64. */
  lemma ExactUnlessOverflow(weights: seq<int>)
    ensures (forall i :: 0 <= i < |weights| ==> Hits(weights, i) == Weight(weights[i])) <==> Total(weights) < TWO63
  {
    if Total(weights) < TWO63 {
      forall i | 0 <= i < |weights| ensures Hits(weights, i) == Weight(weights[i]) {
        HitsAreAnInterval(weights, i);
        BeforeGrows(weights, i + 1, |weights|);
      }
    } else {
      var short := if Drawn(weights) > 0 then Drawn(weights) else 0;
      var i := SomeIndexIsChosen(weights, short);
      HitsAreAnInterval(weights, i);
    }
  }

  // ---------------------------------------------------------------- items with a weight

  /** The positive weights of the first `i` items together. */
  function Upto<T>(items: seq<T>, weight: T -> int, i: nat): nat
    requires i <= |items|
  {
    if i == 0 then 0 else
      Upto(items, weight, i - 1) + if weight(items[i - 1]) > 0 then weight(items[i - 1]) else 0
  }

  /** Item `i` is the one whose interval of summed weights holds the next random value below the int64 total; without a
      positive total it is the first item and no value is used. */
  ghost predicate ByWeight<T(!new)>(source: nat -> nat, at: nat, items: seq<T>, weight: T -> int, i: int, after: nat) {
    var total := (Upto(items, weight, |items|) + TWO63) % TWO64 - TWO63;
    && 0 <= i < |items|
    && if total <= 0 then i == 0 && after == at
       else after == at + 1 && Upto(items, weight, i) <= source(at) % total < Upto(items, weight, i + 1)
  }

  ghost predicate WeightsOf<T(!new)>(weights: seq<int>, items: seq<T>, weight: T -> int) {
    |weights| == |items| && forall k :: 0 <= k < |items| ==> weights[k] == weight(items[k])
  }

  lemma {:induction false} SameSums<T(!new)>(weights: seq<int>, items: seq<T>, weight: T -> int, i: nat)
    requires WeightsOf(weights, items, weight) && i <= |items|
    ensures Before(weights, i) == Upto(items, weight, i)
  {
    if i > 0 {
      SameSums(weights, items, weight, i - 1);
    }
  }

  lemma PickIsByWeight<T(!new)>(source: nat -> nat, at: nat, weights: seq<int>, items: seq<T>, weight: T -> int)
    requires WeightsOf(weights, items, weight) && items != []
    ensures ByWeight(source, at, items, weight, PickOf(source, at, weights).0, PickOf(source, at, weights).1)
  {
    var i := PickOf(source, at, weights).0;
    SameSums(weights, items, weight, |items|);
    SameSums(weights, items, weight, i);
    SameSums(weights, items, weight, i + 1);
  }

  /** The values below the total that lie in an interval. */
  ghost function Values(total: int, lo: int, hi: int): set<int> {
    set v | 0 <= v < total && Between(lo, v, hi)
  }

  /** As long as the total fits an int64, each item has as many of the values as its weight says. */
  lemma SharesAreWeights<T(!new)>(items: seq<T>, weight: T -> int, i: nat)
    requires i < |items|
    ensures |Values(Upto(items, weight, |items|), Upto(items, weight, i), Upto(items, weight, i + 1))|
            == if weight(items[i]) > 0 then weight(items[i]) else 0
  {
    var lo, hi := Upto(items, weight, i), Upto(items, weight, i + 1);
    UptoGrows(items, weight, i + 1, |items|);
    assert Values(Upto(items, weight, |items|), lo, hi) == Interval(lo, hi);
    IntervalSize(lo, hi);
  }

  lemma {:induction false} UptoGrows<T(!new)>(items: seq<T>, weight: T -> int, i: nat, j: nat)
    requires i <= j <= |items|
    ensures Upto(items, weight, i) <= Upto(items, weight, j)
    decreases j - i
  {
    if i < j {
      UptoGrows(items, weight, i, j - 1);
    }
  }
}
