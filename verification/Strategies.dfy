/** Choosing an enabled element: the fixed and the round-robin strategy of strategy.cpp. */
module Strategies {
  import opened Bytes
  import opened Elements

  ghost function States(elements: seq<Element>): (on: seq<bool>)
    reads elements
    ensures |on| == |elements| && forall i :: 0 <= i < |on| ==> on[i] == elements[i].enable
  {
    seq(|elements|, i requires 0 <= i < |elements| reads elements => elements[i].enable)
  }

  /** The first enabled index at or after start, the indices taken in a circle. */
  ghost predicate IsNext(on: seq<bool>, start: nat, i: nat)
    requires start < |on|
  {
    i < |on| && on[i] && forall k :: 0 <= k < Steps(|on|, start, i) ==> !on[Around(|on|, start, k)]
  }

  /** How many steps it is from start to i around a circle of n. */
  function Steps(n: nat, start: nat, i: nat): nat
    requires start < n && i < n
  {
    if start <= i then i - start else i + n - start
  }

  /** Where k steps from start lead. */
  function Around(n: nat, start: nat, k: nat): (r: nat)
    requires start < n && k <= n
    ensures r < n
  {
    if start + k < n then start + k else if start + k - n < n then start + k - n else start
  }

  /** The search goes upwards from start to the end and then from 0 up to start. */
  lemma NextExactly(on: seq<bool>, start: nat, i: nat)
    requires start < |on|
    ensures IsNext(on, start, i) <==>
            && i < |on| && on[i]
            && if start <= i then forall j :: start <= j < i ==> !on[j]
               else (forall j :: start <= j < |on| ==> !on[j]) && forall j :: 0 <= j < i ==> !on[j]
  {
    var n := |on|;
    if IsNext(on, start, i) {
      forall j | 0 <= j < n && (if start <= i then start <= j < i else start <= j || j < i) ensures !on[j] {
        AroundSteps(n, start, j);
        assert Steps(n, start, j) < Steps(n, start, i);
        assert !on[Around(n, start, Steps(n, start, j))];
      }
    }
  }

  /** FixedStrategy::ChooseByNothing */
  method ChooseFixed(elements: seq<Element>) returns (e: Element?)
    ensures e == null <==> forall i :: 0 <= i < |elements| ==> !elements[i].enable
    ensures e != null ==> exists i :: 0 <= i < |elements| && e == elements[i] && e.enable
                                      && forall j :: 0 <= j < i ==> !elements[j].enable
  {
    for i := 0 to |elements|
      invariant forall j :: 0 <= j < i ==> !elements[j].enable
    {
      if elements[i].enable {
        return elements[i];
      }
    }
    return null;
  }

  class RollStrategy {
    const elements: seq<Element>
    var current: nat

    constructor (elements: seq<Element>)
      ensures this.elements == elements && current == 0
    {
      this.elements, current := elements, 0;
    }

    /** RollStrategy::ChooseByNothing: the first enabled element from the current place on, the place moving on by
        one; nothing, and no move, exactly when none is enabled. chosen is the index of the element. */
    method ChooseByNothing() returns (e: Element?, ghost chosen: nat)
      modifies this`current
      ensures e == null <==> forall i :: 0 <= i < |elements| ==> !elements[i].enable
      ensures e == null ==> current == old(current)
      ensures e != null ==> chosen < |elements| && e == elements[chosen] && current == old(current) + 1
                            && IsNext(States(elements), old(current) % |elements|, chosen)
    {
      chosen := 0;
      var n := |elements|;
      if n == 0 {
        return null, 0;
      }
      var index := current % n;
      ghost var start := index;
      hide Around, Steps;
      StepAround(n, start, 0);
      for i := 0 to n
        invariant current == old(current) && index < n
        invariant index == Around(n, start, i)
        invariant forall k :: 0 <= k < i ==> !elements[Around(n, start, k)].enable
      {
        if !elements[index].enable {
          StepAround(n, start, i);
          index := (index + 1) % n;
          continue;
        }
        current := current + 1;
        StepsAround(n, start, i);
        return elements[index], index;
      }
      forall j | 0 <= j < n ensures !elements[j].enable {
        AroundSteps(n, start, j);
      }
      return null, 0;
    }
  }

  lemma StepAround(n: nat, start: nat, k: nat)
    requires start < n && k < n
    ensures (Around(n, start, k) + 1) % n == Around(n, start, k + 1) && Around(n, start, 0) == start
  {
    var next := Around(n, start, k) + 1;
    if next < n {
      ModIs(next, n, 0, next);
    } else {
      ModIs(next, n, 1, 0);
    }
  }

  lemma StepsAround(n: nat, start: nat, k: nat)
    requires start < n && k < n
    ensures Steps(n, start, Around(n, start, k)) == k
  {
  }

  lemma AroundSteps(n: nat, start: nat, i: nat)
    requires start < n && i < n
    ensures Steps(n, start, i) < n && Around(n, start, Steps(n, start, i)) == i
  {
  }

  /** n successful choices in a row, the k-th from place current + k on among elements in states on[k]. */
  ghost predicate Round(on: seq<seq<bool>>, picks: seq<nat>, n: nat, current: nat) {
    && n > 0 && |on| == |picks| == n
    && (forall k :: 0 <= k < n ==> |on[k]| == n)
    && (forall k :: 0 <= k < n ==> IsNext(on[k], (current + k) % n, picks[k]))
  }

  /** The turn at which the search starts at element i. */
  lemma TurnOf(n: nat, current: nat, i: nat) returns (k: nat)
    requires i < n
    ensures k < n && (current + k) % n == i
  {
    var c := current % n;
    k := Steps(n, c, i);
    var q := current / n;
    assert current + k == n * q + (c + k);
    assert c + k == i || c + k == i + n;
    if c + k == i {
      ModIs(current + k, n, q, i);
    } else {
      assert current + k == n * (q + 1) + i;
      ModIs(current + k, n, q + 1, i);
    }
  }

  /** Fairness: in a round every element enabled throughout is chosen, and if all stay enabled each is chosen once. */
  lemma RoundIsFair(on: seq<seq<bool>>, picks: seq<nat>, n: nat, current: nat)
    requires Round(on, picks, n, current)
    ensures forall i :: 0 <= i < n && (forall k :: 0 <= k < n ==> on[k][i]) ==> i in picks
    ensures (forall k, i :: 0 <= k < n && 0 <= i < n ==> on[k][i]) ==>
              (forall j, k :: 0 <= j < k < n ==> picks[j] != picks[k]) && forall i :: 0 <= i < n ==> i in picks
  {
    forall i | 0 <= i < n && (forall k :: 0 <= k < n ==> on[k][i]) ensures i in picks {
      var k := TurnOf(n, current, i);
      OwnTurn(on[k], i, picks[k]);
    }
    if forall k, i :: 0 <= k < n && 0 <= i < n ==> on[k][i] {
      forall j, k | 0 <= j < k < n ensures picks[j] != picks[k] {
        OwnTurn(on[j], (current + j) % n, picks[j]);
        OwnTurn(on[k], (current + k) % n, picks[k]);
        TurnsDiffer(n, current + j, current + k);
      }
    }
  }

  /** An enabled element is chosen when the search starts at it. */
  lemma OwnTurn(on: seq<bool>, start: nat, i: nat)
    requires start < |on| && on[start] && IsNext(on, start, i)
    ensures i == start
  {
    assert Around(|on|, start, 0) == start;
  }

  lemma TurnsDiffer(n: nat, a: nat, b: nat)
    requires a < b < a + n
    ensures a % n != b % n
  {
    var q, r := a / n, a % n;
    assert b == n * q + (r + (b - a));
    if r + (b - a) < n {
      ModIs(b, n, q, r + (b - a));
    } else {
      assert b == n * (q + 1) + (r + (b - a) - n);
      ModIs(b, n, q + 1, r + (b - a) - n);
    }
  }
}
