/** The root loop shared by both `find_best_move` functions keeps the first
    move whose value is strictly greater than every value seen before it. */
module Choice {
  import opened ExtendedInt

  datatype Option<T> = None | Some(value: T)

  /** The index the loop `if move_value > best_value: best_move = move`
      settles on: the first position of a maximal value. */
  function FirstArgMax(values: seq<int>): (k: nat)
    requires |values| > 0
    ensures k < |values|
    ensures forall j :: 0 <= j < |values| ==> values[j] <= values[k]
    ensures forall j :: 0 <= j < k ==> values[j] < values[k]
  {
    if |values| == 1 then 0
    else
      var k := FirstArgMax(values[..|values| - 1]);
      if values[|values| - 1] > values[k] then |values| - 1 else k
  }

  /** Extending the scanned values by one moves the choice only to a strictly larger value. */
  lemma FirstArgMaxSnoc(values: seq<int>, x: int)
    requires |values| > 0
    ensures FirstArgMax(values + [x]) == if x > values[FirstArgMax(values)] then |values| else FirstArgMax(values)
  {
    assert (values + [x])[..|values|] == values;
  }

  /** One more step of the root loop extends the prefix of `target` it has
      computed by one element. */
  lemma TakeSnoc(target: seq<int>, k: nat)
    requires k < |target|
    ensures target[..k + 1] == target[..k] + [target[k]]
  {
  }

  /** What the root loop holds after scanning `values`, the values of the
      first `|values|` of `items`: no move and `-inf` before the first one,
      afterwards the first item of greatest value together with that value. */
  ghost predicate Keeps<T>(best: Option<T>, bestValue: ExtInt, items: seq<T>, values: seq<int>)
    requires |values| <= |items|
  {
    if values == [] then best.None? && bestValue == NegInf
    else best == Some(items[FirstArgMax(values)]) && bestValue == Fin(values[FirstArgMax(values)])
  }

  /** `if move_value > best_value: best_value = move_value; best_move = move`
      for the next `item`, whose value is `x`. */
  method KeepBest<T>(best: Option<T>, bestValue: ExtInt, items: seq<T>, ghost values: seq<int>, item: T, x: int)
    returns (best': Option<T>, bestValue': ExtInt)
    requires |values| < |items| && item == items[|values|] && Keeps(best, bestValue, items, values)
    ensures Keeps(best', bestValue', items, values + [x])
  {
    if values != [] {
      FirstArgMaxSnoc(values, x);
    }
    if bestValue.Lt(Fin(x)) {
      best', bestValue' := Some(item), Fin(x);
    } else {
      best', bestValue' := best, bestValue;
    }
  }
}
