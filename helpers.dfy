/** get_closest_number_index, the arg-min scan of kademlia/helpers.py and
    kademlia_dht/helpers.py (the two copies are the same). */
module Helpers {
  import opened Wrappers

  function Abs(x: int): nat
  {
    if x < 0 then -x else x
  }

  /** Index of the number closest to the target, the first one on a tie. */
  predicate IsFirstClosest(numbers: seq<int>, target: int, m: nat)
  {
    && m < |numbers|
    && (forall j :: 0 <= j < |numbers| ==> Abs(numbers[m] - target) <= Abs(numbers[j] - target))
    && (forall j :: 0 <= j < m ==> Abs(numbers[j] - target) > Abs(numbers[m] - target))
  }

  /** At most one index is the first closest one. */
  lemma FirstClosestUnique(numbers: seq<int>, target: int, m: nat, n: nat)
    requires IsFirstClosest(numbers, target, m) && IsFirstClosest(numbers, target, n)
    ensures m == n
  {
    assert Abs(numbers[m] - target) == Abs(numbers[n] - target);
    if m < n {
      assert false;
    } else if n < m {
      assert false;
    }
  }

  /** A reference definition by recursion: the first element with the least
      distance; an empty list raises IndexError (numbers[0]). */
  function ClosestIndex(numbers: seq<int>, target: int): (r: Result<nat>)
    ensures r.Err? <==> numbers == []
    ensures r.Err? ==> r.error == IndexError
    ensures r.Ok? ==> IsFirstClosest(numbers, target, r.value)
  {
    if numbers == [] then Err(IndexError)
    else
      var m := FirstClosestFrom(numbers, target);
      Ok(m)
  }

  function FirstClosestFrom(numbers: seq<int>, target: int): (m: nat)
    requires numbers != []
    ensures IsFirstClosest(numbers, target, m)
  {
    if |numbers| == 1 then 0
    else
      var tail := numbers[1..];
      var m := FirstClosestFrom(tail, target);
      if Abs(numbers[0] - target) <= Abs(tail[m] - target) then
        assert IsFirstClosest(numbers, target, 0) by {
          forall j | 1 <= j < |numbers|
            ensures Abs(numbers[0] - target) <= Abs(numbers[j] - target)
          {
            assert numbers[j] == tail[j - 1];
          }
        }
        0
      else
        assert IsFirstClosest(numbers, target, 1 + m) by {
          forall j | 1 <= j < |numbers|
            ensures Abs(numbers[1 + m] - target) <= Abs(numbers[j] - target)
            ensures j < 1 + m ==> Abs(numbers[j] - target) > Abs(numbers[1 + m] - target)
          {
            assert numbers[j] == tail[j - 1];
          }
        }
        1 + m
  }

  /** get_closest_number_index(numbers, target): the loop keeps the first
      index whose distance is strictly below every earlier one. */
  method GetClosestNumberIndex(numbers: seq<int>, target: int) returns (r: Result<nat>)
    ensures r.Err? <==> numbers == []
    ensures r.Err? ==> r.error == IndexError
    ensures r.Ok? ==> IsFirstClosest(numbers, target, r.value)
    ensures r == ClosestIndex(numbers, target)
  {
    if |numbers| == 0 {
      return Err(IndexError);
    }
    var closestIndex: nat := 0;
    var closestDifference := Abs(numbers[0] - target);
    for i := 1 to |numbers|
      invariant closestIndex < i
      invariant closestDifference == Abs(numbers[closestIndex] - target)
      invariant forall j :: 0 <= j < i ==> closestDifference <= Abs(numbers[j] - target)
      invariant forall j :: 0 <= j < closestIndex ==> Abs(numbers[j] - target) > closestDifference
    {
      var difference := Abs(numbers[i] - target);
      if difference < closestDifference {
        closestDifference := difference;
        closestIndex := i;
      }
    }
    r := Ok(closestIndex);
    FirstClosestUnique(numbers, target, closestIndex, ClosestIndex(numbers, target).value);
  }
}
