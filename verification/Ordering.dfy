// Nondecreasing lists of integers and the largest of a list.
module Ordering {
  ghost predicate NonDecreasing(s: seq<int>) {
    forall i, j :: 0 <= i <= j < |s| ==> s[i] <= s[j]
  }

  /** The largest number of a list. */
  function Highest(s: seq<int>): int
    requires s != []
  {
    if |s| == 1 then s[0]
    else if s[|s| - 1] > Highest(s[..|s| - 1]) then s[|s| - 1]
    else Highest(s[..|s| - 1])
  }

  lemma {:induction false} HighestIsMaximum(s: seq<int>)
    requires s != []
    ensures Highest(s) in s
    ensures forall i :: 0 <= i < |s| ==> s[i] <= Highest(s)
    decreases |s|
  {
    if |s| == 1 {
    } else {
      HighestIsMaximum(s[..|s| - 1]);
    }
  }
}
