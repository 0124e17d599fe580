/** In-order cuts of `n` items into groups, and why the greedy cut is the shortest. */
module Grouping {

  const BUFFER_MAX_COUNT := 4

  /** Whether the group of `take` items from `from` fits one block. */
  type Fit = (int, int) -> bool

  function Sum(s: seq<nat>): nat {
    if |s| == 0 then 0 else Sum(s[..|s| - 1]) + s[|s| - 1]
  }

  /** A group may be sent when it is within the cap and fits, or is a single item that has to go. */
  predicate Sendable(fits: Fit, n: nat, from: nat, take: nat) {
    1 <= take <= 4 && from + take <= n && (take == 1 || fits(from, take))
  }

  /** `groups` cuts a prefix of the items, in order, into sendable groups. */
  ghost predicate InOrder(fits: Fit, n: nat, groups: seq<nat>) {
    |groups| == 0 ||
    (InOrder(fits, n, groups[..|groups| - 1])
     && Sendable(fits, n, Sum(groups[..|groups| - 1]), groups[|groups| - 1]))
  }

  /** No longer group from `from` is within the cap and fits. */
  ghost predicate Longest(fits: Fit, n: nat, from: nat, take: nat) {
    forall t :: take < t <= 4 && from + t <= n ==> !fits(from, t)
  }

  ghost predicate Greedy(fits: Fit, n: nat, groups: seq<nat>) {
    |groups| == 0 ||
    (Greedy(fits, n, groups[..|groups| - 1])
     && Longest(fits, n, Sum(groups[..|groups| - 1]), groups[|groups| - 1]))
  }

  /** What is left of a group that fits when items are taken off its front fits too. */
  ghost predicate SuffixClosed(fits: Fit) {
    forall from, take, from', take' ::
      fits(from, take) && 1 <= take' <= take <= BUFFER_MAX_COUNT && from' + take' == from + take ==> fits(from', take')
  }

  /** After any number of groups the greedy cut is at least as far along as any other. */
  lemma {:induction false} GreedyStaysAhead(fits: Fit, n: nat, greedy: seq<nat>, other: seq<nat>)
    requires SuffixClosed(fits) && |greedy| == |other|
    requires InOrder(fits, n, greedy) && Greedy(fits, n, greedy) && InOrder(fits, n, other)
    ensures Sum(greedy) >= Sum(other)
    decreases |greedy|
  {
    if |greedy| > 0 {
      var k := |greedy| - 1;
      GreedyStaysAhead(fits, n, greedy[..k], other[..k]);
      var g, o := Sum(greedy[..k]), Sum(other[..k]);
      var t: int := o as int + other[k] as int - g as int;
      if other[k] > 1 && t >= 1 {
        assert fits(o, other[k]);
        assert fits(g, t);
      }
    }
  }

  lemma {:induction false} Prefixes(fits: Fit, n: nat, groups: seq<nat>, i: nat)
    requires InOrder(fits, n, groups) && i <= |groups|
    ensures InOrder(fits, n, groups[..i])
    ensures Greedy(fits, n, groups) ==> Greedy(fits, n, groups[..i])
    ensures Sum(groups[..i]) + |groups| - i <= Sum(groups)
    decreases |groups|
  {
    if i < |groups| {
      Prefixes(fits, n, groups[..|groups| - 1], i);
      assert groups[..|groups| - 1][..i] == groups[..i];
    } else {
      assert groups[..i] == groups;
    }
  }

  /**
   Greedy packing is optimal: when the rests of groups that fit fit too, no in-order cut of all the
   items into sendable groups has fewer groups than the greedy one.
   */
  lemma GreedyIsOptimal(fits: Fit, n: nat, greedy: seq<nat>, other: seq<nat>)
    requires SuffixClosed(fits)
    requires InOrder(fits, n, greedy) && Greedy(fits, n, greedy) && Sum(greedy) == n
    requires InOrder(fits, n, other) && Sum(other) == n
    ensures |greedy| <= |other|
  {
    if |other| < |greedy| {
      Prefixes(fits, n, greedy, |other|);
      GreedyStaysAhead(fits, n, greedy[..|other|], other);
    }
  }

  lemma LongestIsUnique(fits: Fit, n: nat, from: nat, a: nat, b: nat)
    requires Sendable(fits, n, from, a) && Longest(fits, n, from, a)
    requires Sendable(fits, n, from, b) && Longest(fits, n, from, b)
    ensures a == b
  {
  }

  /** There is only one greedy cut. */
  lemma {:induction false} GreedyIsUnique(fits: Fit, n: nat, a: seq<nat>, b: seq<nat>)
    requires InOrder(fits, n, a) && Greedy(fits, n, a) && InOrder(fits, n, b) && Greedy(fits, n, b)
    requires |a| == |b|
    ensures a == b
    decreases |a|
  {
    if |a| > 0 {
      var k := |a| - 1;
      GreedyIsUnique(fits, n, a[..k], b[..k]);
      LongestIsUnique(fits, n, Sum(a[..k]), a[k], b[k]);
    }
  }

  lemma GreedyLength(fits: Fit, n: nat, a: seq<nat>, b: seq<nat>)
    requires InOrder(fits, n, a) && Greedy(fits, n, a) && InOrder(fits, n, b) && Greedy(fits, n, b)
    requires Sum(a) == n == Sum(b) && |a| <= |b|
    ensures a == b
  {
    Prefixes(fits, n, b, |a|);
    GreedyIsUnique(fits, n, a, b[..|a|]);
    assert b[..|b|] == b;
  }
}
