/**
 * `applyDifferentialAsStack`: each differential after the first has its
 * predecessor (already updated) added into it, in place, so that the list
 * ends up holding its own running sums. `updateTime` uses it on the pair
 * `(netAcc, velocity)` to add the net acceleration into the velocity.
 */
module Differentials {
  import opened Vector2D

  /** The list `applyDifferentialAsStack` leaves behind, one element at a
      time: element `i` is the original element `i` plus the new element
      `i - 1`. */
  function Stacked(s: seq<Vec>): (r: seq<Vec>)
    ensures |r| == |s|
    decreases |s|
  {
    if |s| <= 1 then s
    else
      var p := Stacked(s[..|s| - 1]);
      p + [Add2D(s[|s| - 1], p[|s| - 2])]
  }

  /** The reference definition: the sum of a list of vectors. */
  function Sum(s: seq<Vec>): Vec
    decreases |s|
  {
    if s == [] then Zero else Add2D(Sum(s[..|s| - 1]), s[|s| - 1])
  }

  /** Stacking computes prefix sums: element `i` becomes the sum of the
      original elements `0..i`. */
  lemma {:induction false} StackedIsPrefixSums(s: seq<Vec>)
    ensures forall i :: 0 <= i < |s| ==> Stacked(s)[i] == Sum(s[..i + 1])
    decreases |s|
  {
    if |s| == 1 {
      assert s[..1][..0] == [];
    } else if |s| > 1 {
      var n := |s| - 1;
      StackedIsPrefixSums(s[..n]);
      forall i | 0 <= i < |s|
        ensures Stacked(s)[i] == Sum(s[..i + 1])
      {
        if i < n {
          assert s[..n][..i + 1] == s[..i + 1];
        } else {
          assert s[..n][..n] == s[..n];
          assert s[..n + 1] == s;
          assert s[..i + 1][..n] == s[..n];
        }
      }
    }
  }

  /** The first differential is never changed. */
  lemma {:induction false} StackedKeepsFirst(s: seq<Vec>)
    requires |s| > 0
    ensures Stacked(s)[0] == s[0]
    decreases |s|
  {
    if |s| > 1 {
      StackedKeepsFirst(s[..|s| - 1]);
    }
  }

  /** Stacking a list one element longer extends the stacked list by one. */
  lemma StackedStep(s: seq<Vec>, i: nat)
    requires 1 <= i < |s|
    ensures Stacked(s[..i + 1]) == Stacked(s[..i]) + [Add2D(s[i], Stacked(s[..i])[i - 1])]
  {
    assert s[..i + 1][..i] == s[..i];
  }

  /** The stacking `updateTime` performs: the velocity gains the net
      acceleration, the acceleration itself is left as it was. */
  lemma StackedPair(acc: Vec, v: Vec)
    ensures Stacked([acc, v]) == [acc, Add2D(v, acc)]
  {
    assert [acc, v][..1] == [acc];
  }

  /** `applyDifferentialAsStack(...differentials)` on the array of the
      differentials it is given. */
  method ApplyDifferentialAsStack(a: array<Vec>)
    modifies a
    ensures a[..] == Stacked(old(a[..]))
  {
    ghost var s := a[..];
    if a.Length == 0 {
      return;
    }
    assert a[..1] == s[..1];
    var i := 1;
    while i < a.Length
      invariant 1 <= i <= a.Length
      invariant a[..i] == Stacked(s[..i])
      invariant a[i..] == s[i..]
    {
      StackedStep(s, i);
      assert a[i] == s[i];
      a[i] := Vec(a[i].x + a[i - 1].x, a[i].y + a[i - 1].y);
      assert a[..i + 1] == a[..i] + [a[i]];
      i := i + 1;
    }
    assert s[..a.Length] == s;
    assert a[..a.Length] == a[..];
  }
}
