/** Picking some elements of a sequence in their order, by position. */
module Selection {
  /** `part` holds the elements of `whole` at the positions `at`, which ascend. */
  ghost predicate Picks<T>(whole: seq<T>, part: seq<T>, at: seq<nat>) {
    && |part| == |at|
    && (forall j :: 0 <= j < |at| ==> at[j] < |whole| && part[j] == whole[at[j]])
    && (forall i, j :: 0 <= i < j < |at| ==> at[i] < at[j])
  }

  lemma PicksSkip<T>(whole: seq<T>, part: seq<T>, at: seq<nat>, x: T)
    requires Picks(whole, part, at)
    ensures Picks(whole + [x], part, at)
  {
  }

  lemma PicksTake<T>(whole: seq<T>, part: seq<T>, at: seq<nat>, x: T)
    requires Picks(whole, part, at)
    ensures Picks(whole + [x], part + [x], at + [|whole|])
  {
  }

  /** Only the last pick can be the last element. */
  lemma LastPick<T>(whole: seq<T>, part: seq<T>, at: seq<nat>, j: nat)
    requires Picks(whole, part, at) && j < |part| && at[j] == |whole| - 1
    ensures j == |part| - 1
  {
    assert at[j] <= at[|part| - 1];
  }

  function Shift(at: seq<nat>): (r: seq<nat>)
    ensures |r| == |at| && forall j :: 0 <= j < |at| ==> r[j] == at[j] + 1
  {
    seq(|at|, j requires 0 <= j < |at| => at[j] + 1)
  }

  lemma PicksShift<T>(whole: seq<T>, part: seq<T>, at: seq<nat>, x: T)
    requires Picks(whole, part, at)
    ensures Picks([x] + whole, part, Shift(at))
    ensures 0 !in Shift(at) && forall i: nat :: i + 1 in Shift(at) <==> i in at
  {
    forall i: nat ensures i + 1 in Shift(at) <==> i in at {
      if i in at {
        var j :| 0 <= j < |at| && at[j] == i;
        assert Shift(at)[j] == i + 1;
      }
      if i + 1 in Shift(at) {
        var j :| 0 <= j < |at| && Shift(at)[j] == i + 1;
        assert at[j] == i;
      }
    }
  }

  lemma PicksPrepend<T>(whole: seq<T>, part: seq<T>, at: seq<nat>, x: T)
    requires Picks(whole, part, at)
    ensures Picks([x] + whole, [x] + part, [0] + Shift(at))
    ensures forall i: nat :: i + 1 in [0] + Shift(at) <==> i in at
  {
    PicksShift(whole, part, at, x);
  }

  lemma PicksAll<T>(whole: seq<T>)
    ensures Picks(whole, whole, seq(|whole|, i requires 0 <= i < |whole| => i))
  {
  }
}
