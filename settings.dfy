/** Run settings read before the iterations (wave_integration.py): the years LEAP
    calculates, the Windows list separator and the unit multiplier of each pushed LEAP
    variable. */
module Settings {
  import opened Results

  /** `range(first, end + 1)` filtered by `y % every == 0`; divisibility is the same under
      Python's floored and Dafny's Euclidean remainder. */
  function CalcYears(first: int, end: int, every: int): (ys: seq<int>)
    requires every != 0
    decreases end - first
  {
    if first > end then []
    else if first % every == 0 then [first] + CalcYears(first + 1, end, every)
    else CalcYears(first + 1, end, every)
  }

  /** `get_leap_calc_years`: `None` where `y % app.resultsEvery` raises ZeroDivisionError,
      which happens only when the year range is not empty. */
  method GetLeapCalcYears(firstScenarioYear: int, endYear: int, resultsEvery: int)
    returns (r: Option<seq<int>>)
    ensures r.None? <==> resultsEvery == 0 && firstScenarioYear <= endYear
    ensures r.Some? && resultsEvery != 0 ==> r.value == CalcYears(firstScenarioYear, endYear, resultsEvery)
    ensures r.Some? && resultsEvery == 0 ==> r.value == []
  {
    var years: seq<int> := [];
    var y := firstScenarioYear;
    while y < endYear + 1
      invariant firstScenarioYear <= y
      invariant y > firstScenarioYear ==> resultsEvery != 0 && y <= endYear + 1
      invariant resultsEvery != 0 ==>
                  years + CalcYears(y, endYear, resultsEvery) == CalcYears(firstScenarioYear, endYear, resultsEvery)
      invariant resultsEvery == 0 ==> years == []
      decreases endYear + 1 - y
    {
      if resultsEvery == 0 {
        return None;
      }
      if y % resultsEvery == 0 {
        years := years + [y];
      }
      y := y + 1;
    }
    if resultsEvery != 0 {
      assert CalcYears(y, endYear, resultsEvery) == [];
      assert years + [] == years;
    }
    r := Some(years);
  }

  /** The calculated years are exactly the years of the range that `resultsEvery` divides. */
  lemma {:induction false} CalcYearsMembers(first: int, end: int, every: int, y: int)
    requires every != 0
    ensures y in CalcYears(first, end, every) <==> first <= y <= end && y % every == 0
    decreases end - first
  {
    if first <= end {
      CalcYearsMembers(first + 1, end, every, y);
    }
  }

  /** They come in strictly ascending order, each within the range. */
  lemma {:induction false} CalcYearsAscending(first: int, end: int, every: int)
    requires every != 0
    ensures forall i, j :: 0 <= i < j < |CalcYears(first, end, every)| ==>
              CalcYears(first, end, every)[i] < CalcYears(first, end, every)[j]
    ensures forall i :: 0 <= i < |CalcYears(first, end, every)| ==> first <= CalcYears(first, end, every)[i] <= end
    decreases end - first
  {
    if first <= end {
      CalcYearsAscending(first + 1, end, every);
      var rest := CalcYears(first + 1, end, every);
      assert forall i :: 0 <= i < |rest| ==> first + 1 <= rest[i] <= end;
      if first % every == 0 {
        var ys := [first] + rest;
        assert CalcYears(first, end, every) == ys;
        forall i, j | 0 <= i < j < |ys| ensures ys[i] < ys[j] {
          assert ys[j] == rest[j - 1];
          if i > 0 {
            assert ys[i] == rest[i - 1];
          }
        }
        forall i | 0 <= i < |ys| ensures first <= ys[i] <= end {
          if i > 0 {
            assert ys[i] == rest[i - 1];
          }
        }
      } else {
        assert CalcYears(first, end, every) == rest;
      }
    }
  }

  datatype SettingsError =
    | SeparatorLength(separator: string)  // the list separator is not one character
    | UnknownUnit(leapBranch: string)     // no unit multiplier for the LEAP branch

  /** The list-separator check: only a one-character separator is usable. */
  function CheckListSeparator(listseparator: string): (r: Result<char, SettingsError>)
    ensures r.Ok? <==> |listseparator| == 1
    ensures r.Ok? ==> listseparator == [r.value]
    ensures r.Err? ==> r.error == SeparatorLength(listseparator)
  {
    if |listseparator| == 1 then Ok(listseparator[0]) else Err(SeparatorLength(listseparator))
  }

  /** The factor a pushed LEAP variable is multiplied by, by the name of its LEAP branch
      entry; the GDP factor is the decimal 1e-9, not its nearest double. */
  function UnitMultiplier(leapBranch: string): (r: Result<real, SettingsError>)
    ensures r.Ok? <==> leapBranch in {"Population", "GDP", "Industrial_VA_fraction"}
    ensures r.Ok? ==> r.value > 0.0
    ensures r.Err? ==> r.error == UnknownUnit(leapBranch)
  {
    if leapBranch == "Population" then Ok(1.0)
    else if leapBranch == "GDP" then Ok(0.000000001)
    else if leapBranch == "Industrial_VA_fraction" then Ok(100.0)
    else Err(UnknownUnit(leapBranch))
  }

  /** The three known branches have the factors 1, 1e-9 and 100. */
  lemma UnitMultipliers()
    ensures UnitMultiplier("Population") == Ok(1.0)
    ensures UnitMultiplier("GDP") == Ok(0.000000001)
    ensures UnitMultiplier("Industrial_VA_fraction") == Ok(100.0)
  {
    assert "GDP" != "Population";
    assert "Industrial_VA_fraction" != "Population" && "Industrial_VA_fraction" != "GDP";
  }
}
