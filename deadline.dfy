/** The time limit of the searches: `time.time() - start_time > time_limit`,
    read once per visited node. The wall clock is not modelled; a clock is the
    sequence of answers its successive tests give. */
module Deadline {

  /** What a loop that starts one search per item at the clock's tests
      `starts`, all made in order between the tests `first` and `now`, knows
      of the values `values` it got: an item whose first test found the time
      up got its value in `early`, the value of a search cut short at once. */
  ghost predicate StartedInOrder(expired: nat -> bool, first: nat, now: nat, starts: seq<nat>, values: seq<int>, early: seq<int>)
    requires |starts| == |values| <= |early|
  {
    (forall i :: 0 <= i < |starts| ==> first <= starts[i] < now) &&
    (forall i, j :: 0 <= i < j < |starts| ==> starts[i] < starts[j]) &&
    (forall i :: 0 <= i < |values| && expired(starts[i]) ==> values[i] == early[i])
  }

  /** One more search, started at the test `now` and finished before the
      test `now'`. */
  lemma StartedInOrderSnoc(expired: nat -> bool, first: nat, now: nat, now': nat, starts: seq<nat>, values: seq<int>, early: seq<int>, x: int)
    requires |starts| == |values| < |early| && first <= now < now'
    requires StartedInOrder(expired, first, now, starts, values, early)
    requires expired(now) ==> x == early[|values|]
    ensures StartedInOrder(expired, first, now', starts + [now], values + [x], early)
  {
  }

  /** A loop that starts after its deadline gets the cut-short value for
      every item. */
  lemma LateStart(expired: nat -> bool, first: nat, now: nat, starts: seq<nat>, values: seq<int>, early: seq<int>)
    requires |starts| == |values| == |early|
    requires StartedInOrder(expired, first, now, starts, values, early)
    requires forall j: nat :: first <= j ==> expired(j)
    ensures values == early
  {
  }

  class Clock {
    /** The answer of the `k`-th test, counting from zero. */
    const expired: nat -> bool
    /** How many tests have been made so far. */
    var tests: nat

    constructor (expired: nat -> bool)
      ensures this.expired == expired && tests == 0
    {
      this.expired := expired;
      tests := 0;
    }

    /** The search is never cut short. */
    ghost predicate NeverExpires() {
      forall k: nat :: !expired(k)
    }

    /** Every test from the `k`-th on finds the time limit passed: the search
        starts after its deadline. */
    ghost predicate ExpiredFrom(k: nat) {
      forall j: nat :: k <= j ==> expired(j)
    }

    /** One evaluation of `time.time() - start_time > time_limit`. */
    method TimeUp() returns (up: bool)
      modifies this
      ensures up == expired(old(tests))
      ensures tests == old(tests) + 1
    {
      up := expired(tests);
      tests := tests + 1;
    }
  }
}
