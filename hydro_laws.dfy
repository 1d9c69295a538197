/** What the rows of a hydropower availability file are: one per timeslice for every WEAP
    year with positive capacity, each the row computed for its year and timeslice, and the
    errors that end the file. */
module HydroLaws {
  import opened Results
  import opened PyText
  import opened Hydro

  /** The number of years in `[weapBaseYear, y)` whose branch capacity is positive. */
  function PositiveYears(src: Source, y: int): nat
    requires src.weapBaseYear <= y
    decreases y - src.weapBaseYear
  {
    if y == src.weapBaseYear then 0
    else PositiveYears(src, y - 1) + (if BranchCapacity(src, y - 1) > 0.0 then 1 else 0)
  }

  /** A year that does not fail has one row per timeslice, in timeslice order, each the row
      computed for its timeslice. */
  lemma {:induction false} YearRowsLaw(src: Source, y: int, k: nat)
    requires src.weapBaseYear <= y && k <= |src.timeslices|
    requires YearRows(src, y, k).Ok?
    ensures |YearRows(src, y, k).value| == k
    ensures forall i :: 0 <= i < k ==>
              RowFor(src, y, src.timeslices[i]) == Ok(YearRows(src, y, k).value[i])
  {
    if k > 0 {
      YearRowsLaw(src, y, k - 1);
      YearRowsStep(src, y, k - 1);
    }
  }

  /** A year fails exactly when one of its timeslices fails. */
  lemma {:induction false} YearRowsFail(src: Source, y: int, k: nat)
    requires src.weapBaseYear <= y && k <= |src.timeslices|
    ensures YearRows(src, y, k).Err? <==> exists i :: 0 <= i < k && RowFails(src, y, i)
  {
    if k > 0 {
      YearRowsFail(src, y, k - 1);
      if YearRows(src, y, k - 1).Err? {
        var i :| 0 <= i < k - 1 && RowFails(src, y, i);
        assert YearRows(src, y, k) == YearRows(src, y, k - 1);
      } else {
        YearRowsStep(src, y, k - 1);
        if RowFails(src, y, k - 1) {
          assert YearRows(src, y, k).Err?;
        } else {
          forall i | 0 <= i < k ensures !RowFails(src, y, i) {
            if i < k - 1 {
              assert !(exists j :: 0 <= j < k - 1 && RowFails(src, y, j));
            }
          }
        }
      }
    }
  }

  /** The `i`-th timeslice of year `y` cannot be written. */
  predicate RowFails(src: Source, y: int, i: int)
    requires src.weapBaseYear <= y && 0 <= i < |src.timeslices|
  {
    RowFor(src, y, src.timeslices[i]).Err?
  }

  /** A year that does not fail adds its rows after those of the years before it. */
  lemma FileRowsStep(src: Source, y: int)
    requires src.weapBaseYear < y
    requires FileRows(src, y).Ok?
    ensures FileRows(src, y - 1).Ok?
    ensures BranchCapacity(src, y - 1) <= 0.0 ==> FileRows(src, y).value == FileRows(src, y - 1).value
    ensures BranchCapacity(src, y - 1) > 0.0 ==>
              YearRows(src, y - 1, |src.timeslices|).Ok? &&
              FileRows(src, y).value == FileRows(src, y - 1).value + YearRows(src, y - 1, |src.timeslices|).value
  {
  }

  /** There are as many rows as timeslices times positive-capacity years. */
  lemma {:induction false} FileRowsCount(src: Source, y: int)
    requires src.weapBaseYear <= y
    requires FileRows(src, y).Ok?
    ensures |FileRows(src, y).value| == |src.timeslices| * PositiveYears(src, y)
    decreases y - src.weapBaseYear
  {
    if y > src.weapBaseYear {
      FileRowsStep(src, y);
      FileRowsCount(src, y - 1);
      if BranchCapacity(src, y - 1) > 0.0 {
        YearRowsLaw(src, y - 1, |src.timeslices|);
        var n := PositiveYears(src, y - 1);
        assert |src.timeslices| * (n + 1) == |src.timeslices| * n + |src.timeslices|;
      }
    }
  }

  /** Every row of the file belongs to a year before `y` with positive capacity, names one of
      the timeslices, and is the row computed for that year and timeslice. */
  lemma {:induction false} FileRowsLaw(src: Source, y: int)
    requires src.weapBaseYear <= y
    requires FileRows(src, y).Ok?
    ensures forall row :: row in FileRows(src, y).value ==> FromYearBefore(src, y, row)
    decreases y - src.weapBaseYear
  {
    if y > src.weapBaseYear {
      FileRowsStep(src, y);
      FileRowsLaw(src, y - 1);
      var prev := FileRows(src, y - 1).value;
      if BranchCapacity(src, y - 1) > 0.0 {
        var yr := YearRows(src, y - 1, |src.timeslices|).value;
        YearRowsLaw(src, y - 1, |src.timeslices|);
        forall row | row in FileRows(src, y).value
          ensures FromYearBefore(src, y, row)
        {
          if row in prev {
            assert FromYearBefore(src, y - 1, row);
          } else {
            var i :| 0 <= i < |yr| && yr[i] == row;
            assert RowFor(src, y - 1, src.timeslices[i]) == Ok(row);
          }
        }
      } else {
        forall row | row in FileRows(src, y).value
          ensures FromYearBefore(src, y, row)
        {
          assert FromYearBefore(src, y - 1, row);
        }
      }
    }
  }

  /** The row of a year before `y` with positive capacity, computed for one of the
      timeslices. */
  predicate FromYearBefore(src: Source, y: int, row: Row) {
    src.weapBaseYear <= row.year < y && BranchCapacity(src, row.year) > 0.0
    && row.timeslice in src.timeslices && RowFor(src, row.year, row.timeslice) == Ok(row)
  }

  /** The file's rows, when it is written: one per timeslice and positive-capacity WEAP
      year, each capped at 100. */
  lemma HydroRowsLaw(unit: string, src: Source)
    requires HydroRows(unit, src).Ok?
    ensures unit == "GJ" && |src.gen| % 12 == 0
    ensures src.weapBaseYear <= src.weapEndYear ==>
              |HydroRows(unit, src).value| == |src.timeslices| * PositiveYears(src, src.weapEndYear)
    ensures forall row :: row in HydroRows(unit, src).value ==>
              FromYearBefore(src, src.weapEndYear, row) && ValueOf(row.value) <= 100.0
  {
    if src.weapBaseYear < src.weapEndYear {
      FileRowsCount(src, src.weapEndYear);
      FileRowsLaw(src, src.weapEndYear);
      forall row | row in HydroRows(unit, src).value
        ensures ValueOf(row.value) <= 100.0
      {
        assert FromYearBefore(src, src.weapEndYear, row);
      }
    } else if src.weapBaseYear == src.weapEndYear {
      assert PositiveYears(src, src.weapEndYear) == 0;
    }
  }

  /** Rows fail only on a timeslice's month or on a missing generation value. */
  lemma {:induction false} FileRowsErrors(src: Source, y: int)
    requires src.weapBaseYear <= y
    requires FileRows(src, y).Err?
    ensures !FileRows(src, y).error.WrongUnit? && !FileRows(src, y).error.NotMonthly?
    decreases y - src.weapBaseYear
  {
    if FileRows(src, y - 1).Err? {
      FileRowsErrors(src, y - 1);
    } else {
      YearRowsErrors(src, y - 1, |src.timeslices|);
    }
  }

  lemma {:induction false} YearRowsErrors(src: Source, y: int, k: nat)
    requires src.weapBaseYear <= y && k <= |src.timeslices|
    requires YearRows(src, y, k).Err?
    ensures !YearRows(src, y, k).error.WrongUnit? && !YearRows(src, y, k).error.NotMonthly?
  {
    if YearRows(src, y, k - 1).Err? {
      YearRowsErrors(src, y, k - 1);
    }
  }

  /** The unit check and the monthly check come first: a generation not in GJ, or a count of
      values that is not a whole number of years, is reported as such and by nothing else. */
  lemma HydroRowsChecks(unit: string, src: Source)
    ensures HydroRows(unit, src).Err? && HydroRows(unit, src).error.WrongUnit? <==> unit != "GJ"
    ensures HydroRows(unit, src).Err? && HydroRows(unit, src).error.NotMonthly? <==>
              unit == "GJ" && |src.gen| % 12 != 0
  {
    if unit == "GJ" && |src.gen| % 12 == 0 && src.weapBaseYear < src.weapEndYear
       && FileRows(src, src.weapEndYear).Err? {
      FileRowsErrors(src, src.weapEndYear);
    }
  }
}
