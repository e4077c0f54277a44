/** Wyckoff positions as pyxtal/crystal.py uses them, and `choose_wyckoff`.

    A Wyckoff position is the list of symmetry operations that generate its
    orbit, so its multiplicity is the length of that list. The organized
    table of a group (`get_wyckoffs(sg, organized=True)`, not part of this
    model) is a list of groups of positions that share one multiplicity,
    from the largest multiplicity down. */
module Wyckoff {

  import opened Wrappers

  /** A symmetry operation: the rotation part, with integer entries as in
      the Wyckoff tables, and the translation part. */
  datatype Op = Op(rotation: seq<seq<int>>, translation: seq<real>)

  type Position = seq<Op>

  /** Every group is non-empty and all its positions have the multiplicity
      of its first one, which `choose_wyckoff` reads as `len(wyckoff[0])`. */
  predicate Uniform(table: seq<seq<Position>>)
  {
    forall i :: 0 <= i < |table| ==>
      |table[i]| > 0 && forall p :: p in table[i] ==> |p| == |table[i][0]|
  }

  /** Organized: uniform, and multiplicities do not grow down the list. */
  predicate Organized(table: seq<seq<Position>>)
  {
    && Uniform(table)
    && forall i, j :: 0 <= i < j < |table| ==> |table[j][0]| <= |table[i][0]|
  }

  /** Rule 1 of `choose_wyckoff`: a group fits when its multiplicity does
      not exceed the number of atoms still to place. */
  predicate Fits(group: seq<Position>, number: int)
    requires |group| > 0
  {
    |group[0]| <= number
  }

  /** The positions of every fitting group, in table order: the list
      `good_wyckoff` that the low-to-high branch builds. */
  function Eligible(table: seq<seq<Position>>, number: int): seq<Position>
    requires forall i :: 0 <= i < |table| ==> |table[i]| > 0
  {
    if table == [] then []
    else
      var last := table[|table| - 1];
      Eligible(table[..|table| - 1], number) + (if Fits(last, number) then last else [])
  }

  /** A position is eligible exactly when some fitting group holds it. */
  lemma {:induction false} EligibleMembers(table: seq<seq<Position>>, number: int, p: Position)
    requires forall i :: 0 <= i < |table| ==> |table[i]| > 0
    ensures p in Eligible(table, number) <==>
            exists i :: 0 <= i < |table| && Fits(table[i], number) && p in table[i]
  {
    if table != [] {
      var n := |table| - 1;
      var front := table[..n];
      EligibleMembers(front, number, p);
      if exists i :: 0 <= i < |table| && Fits(table[i], number) && p in table[i] {
        var i :| 0 <= i < |table| && Fits(table[i], number) && p in table[i];
        if i < n {
          assert front[i] == table[i];
        }
      }
      if exists i :: 0 <= i < n && Fits(front[i], number) && p in front[i] {
        var i :| 0 <= i < n && Fits(front[i], number) && p in front[i];
        assert front[i] == table[i];
      }
    }
  }

  /** In an organized table a position that comes from the first fitting
      group has the largest multiplicity among all eligible positions: the
      "prefer large multiplicity" rule. */
  lemma FirstFitIsLargest(table: seq<seq<Position>>, number: int, first: nat, p: Position)
    requires Organized(table)
    requires first < |table| && Fits(table[first], number)
    requires forall j :: 0 <= j < first ==> !Fits(table[j], number)
    requires p in Eligible(table, number)
    ensures |p| <= |table[first][0]|
  {
    EligibleMembers(table, number, p);
    var i :| 0 <= i < |table| && Fits(table[i], number) && p in table[i];
    assert first <= i;
  }

  /** `choose_wyckoff(wyckoffs, number)`. The coin `rand_u(0,1) > 0.5` is
      the parameter highToLow; `choose` picks any member of its list. The
      source returns `False` when nothing fits, here None. */
  method ChooseWyckoff(table: seq<seq<Position>>, number: int, highToLow: bool) returns (r: Option<Position>)
    requires forall i :: 0 <= i < |table| ==> |table[i]| > 0
    ensures r.None? <==> forall i :: 0 <= i < |table| ==> !Fits(table[i], number)
    ensures r.Some? ==> r.value in Eligible(table, number)
    ensures r.Some? && highToLow ==>
              exists i :: 0 <= i < |table| && r.value in table[i] && Fits(table[i], number)
                          && forall j :: 0 <= j < i ==> !Fits(table[j], number)
    ensures r.Some? && Uniform(table) ==> |r.value| <= number
    ensures r.Some? && highToLow && Organized(table) ==>
              forall p :: p in Eligible(table, number) ==> |p| <= |r.value|
  {
    if highToLow {
      for i := 0 to |table|
        invariant forall j :: 0 <= j < i ==> !Fits(table[j], number)
      {
        var wyckoff := table[i];
        if |wyckoff[0]| <= number {
          assert wyckoff[0] in wyckoff;
          var w :| w in wyckoff;
          EligibleMembers(table, number, w);
          forall p | Organized(table) && p in Eligible(table, number)
            ensures |p| <= |w|
          {
            FirstFitIsLargest(table, number, i, p);
          }
          return Some(w);
        }
      }
      return None;
    } else {
      var good: seq<Position> := [];
      for i := 0 to |table|
        invariant good == Eligible(table[..i], number)
      {
        var wyckoff := table[i];
        if |wyckoff[0]| <= number {
          for k := 0 to |wyckoff|
            invariant good == Eligible(table[..i], number) + wyckoff[..k]
          {
            good := good + [wyckoff[k]];
            assert wyckoff[..k + 1] == wyckoff[..k] + [wyckoff[k]];
          }
          assert wyckoff[..|wyckoff|] == wyckoff;
        }
        assert table[..i + 1][..i] == table[..i];
      }
      assert table[..|table|] == table;
      if |good| > 0 {
        assert good[0] in good;
        var w :| w in good;
        EligibleMembers(table, number, w);
        return Some(w);
      } else {
        forall i | 0 <= i < |table|
          ensures !Fits(table[i], number)
        {
          EligibleMembers(table, number, table[i][0]);
        }
        return None;
      }
    }
  }
}
