/** The hydropower channel from WEAP to LEAP (wave_integration.py): for one LEAP scenario
    and one WEAP hydropower branch, a CSV file gets one row per LEAP timeslice for every
    year whose LEAP capacity is positive, holding the month's availability in percent, and
    the LEAP plants' Maximum Availability then points at that data. */
module Hydro {
  import opened Results
  import opened PyText
  import Timeslices

  datatype HydroError =
    | WrongUnit(unit: string)          // the WEAP generation is not in GJ
    | NotMonthly(count: nat)           // the generation values are not whole years of months
    | NoColon(timeslice: string)       // `tsl.Name.index(":")` raised ValueError
    | UnknownMonth(month: string)      // `get_month_num` failed
    | NoGeneration(index: nat)         // `weap_hpp_gen[...]` raised IndexError

  /** One CSV row: year, timeslice name, availability (a rounded `float`, or the `int` 100
      the cap assigns). */
  datatype Row = Row(year: int, timeslice: string, value: PyNumber)

  /** The year whose LEAP capacity is read for WEAP year `y`: `y`, raised to LEAP's base
      year and then lowered to its end year (the second test looks at `y`, so it wins). */
  function CapacityYear(y: int, leapBaseYear: int, leapEndYear: int): (c: int)
    ensures c == y || c == leapBaseYear || c == leapEndYear
    ensures leapBaseYear <= y <= leapEndYear ==> c == y
    ensures leapBaseYear <= leapEndYear ==> leapBaseYear <= c <= leapEndYear
    ensures y < leapBaseYear <= leapEndYear ==> c == leapBaseYear
    ensures leapBaseYear <= leapEndYear < y ==> c == leapEndYear
  {
    var c := y;
    var c := if leapBaseYear > y then leapBaseYear else c;
    if leapEndYear < y then leapEndYear else c
  }

  /** The WEAP branch's capacity: the Exogenous Capacity of its LEAP plants, added from 0. */
  function Capacity(hpps: seq<string>, year: int, capacity: (string, int) -> real): real
    decreases |hpps|
  {
    if hpps == [] then 0.0
    else Capacity(hpps[..|hpps| - 1], year, capacity) + capacity(hpps[|hpps| - 1], year)
  }

  /** Everything one file's rows depend on. */
  datatype Source = Source(
    gen: seq<real>,                                  // monthly generation, first value dropped
    weapBaseYear: int, weapEndYear: int,
    leapBaseYear: int, leapEndYear: int,
    hpps: seq<string>,                               // the LEAP plants of the WEAP branch
    capacity: (string, int) -> real,                 // a plant's capacity in a year
    timeslices: seq<string>,                         // LEAP's timeslice names
    availability: (real, int, int, real) -> real)    // the rounded percentage formula

  function BranchCapacity(src: Source, y: int): real {
    Capacity(src.hpps, CapacityYear(y, src.leapBaseYear, src.leapEndYear), src.capacity)
  }

  /** The month number of a timeslice, from the text before its first `:`. */
  function TimesliceMonthNum(name: string): Result<int, HydroError> {
    var colon := Find(name, ':');
    if colon < 0 then Err(NoColon(name))
    else
      match Timeslices.GetMonthNum(name[..colon])
      case None => Err(UnknownMonth(name[..colon]))
      case Some(m) => Ok(m)
  }

  /** The availability written for month `m` of year `y`: the rounded `float`, or the `int`
      100 when it exceeds 100. */
  function MonthValue(src: Source, y: int, m: int, cap: real): (r: Result<PyNumber, HydroError>)
    requires src.weapBaseYear <= y && 1 <= m
    ensures r.Ok? ==> ValueOf(r.value) <= 100.0 && (r.value.PyInt? <==> r.value == PyInt(100))
  {
    var idx := (y - src.weapBaseYear) * 12 + m - 1;
    if idx >= |src.gen| then Err(NoGeneration(idx))
    else
      var val := src.availability(src.gen[idx], y, m, cap);
      Ok(if val > 100.0 then PyInt(100) else PyFloat(val))
  }

  function RowFor(src: Source, y: int, name: string): (r: Result<Row, HydroError>)
    requires src.weapBaseYear <= y
    ensures r.Ok? ==> r.value.year == y && r.value.timeslice == name && ValueOf(r.value.value) <= 100.0
  {
    match TimesliceMonthNum(name)
    case Err(e) => Err(e)
    case Ok(m) =>
      match MonthValue(src, y, m, BranchCapacity(src, y))
      case Err(e) => Err(e)
      case Ok(v) => Ok(Row(y, name, v))
  }

  /** The rows of year `y` for the first `k` timeslices; the first failure aborts. */
  function YearRows(src: Source, y: int, k: nat): Result<seq<Row>, HydroError>
    requires src.weapBaseYear <= y && k <= |src.timeslices|
  {
    if k == 0 then Ok([])
    else
      var prev := YearRows(src, y, k - 1);
      if prev.Err? then prev
      else
        var row := RowFor(src, y, src.timeslices[k - 1]);
        if row.Err? then Err(row.error) else Ok(prev.value + [row.value])
  }

  /** The rows of the WEAP years before `y`; a year without capacity writes nothing. */
  function FileRows(src: Source, y: int): Result<seq<Row>, HydroError>
    requires src.weapBaseYear <= y
    decreases y - src.weapBaseYear
  {
    if y == src.weapBaseYear then Ok([])
    else
      var prev := FileRows(src, y - 1);
      if prev.Err? || BranchCapacity(src, y - 1) <= 0.0 then prev
      else
        var year := YearRows(src, y - 1, |src.timeslices|);
        if year.Err? then year else Ok(prev.value + year.value)
  }

  /** The whole file: the unit and length checks, then the years from WEAP's base year up
      to, but not including, its end year. */
  function HydroRows(unit: string, src: Source): Result<seq<Row>, HydroError> {
    if unit != "GJ" then Err(WrongUnit(unit))
    else if |src.gen| % 12 != 0 then Err(NotMonthly(|src.gen|))
    else if src.weapEndYear <= src.weapBaseYear then Ok([])
    else FileRows(src, src.weapEndYear)
  }

  /** One CSV line: the year, the timeslice name and the value, joined by the list
      separator; a float value is printed by `show`. */
  function RowText(row: Row, sep: char, show: real -> string): string {
    IntToStr(row.year) + [sep] + row.timeslice + [sep] + Str(row.value, show)
  }

  /** With a separator that cannot occur in an integer's text, the first column of a line
      ends at the first separator and reads back as the row's year. */
  lemma RowTextYear(row: Row, sep: char, show: real -> string)
    requires sep != '-' && !IsDigit(sep)
    ensures var s := RowText(row, sep, show);
            var k := Find(s, sep);
            k == |IntToStr(row.year)| && ParseInt(s[..k]) == Some(row.year)
  {
    var s := RowText(row, sep, show);
    var y := IntToStr(row.year);
    IntToStrChars(row.year);
    assert s[|y|] == sep;
    assert s[..|y|] == y;
    assert sep !in s[..|y|];
  }

  /** The line format of the CSV file. */
  function LineOf(sep: char, show: real -> string): Row -> string {
    row => RowText(row, sep, show)
  }

  /** The file's lines, one per row in order. */
  function Lines(rows: seq<Row>, line: Row -> string): (lines: seq<string>)
    ensures |lines| == |rows|
    decreases |rows|
  {
    if rows == [] then []
    else Lines(rows[..|rows| - 1], line) + [line(rows[|rows| - 1])]
  }

  /** The temporary CSV file, as the lines written to it. */
  class CsvFile {
    var lines: seq<string>

    /** `fs_obj.CreateTextFile(csv_path, True, False)`: a new, empty file. */
    constructor()
      ensures lines == []
    {
      lines := [];
    }

    method WriteLine(line: string)
      modifies this
      ensures lines == old(lines) + [line]
    {
      lines := lines + [line];
    }
  }

  /** The body of the loop over WEAP hydropower branches, up to closing the CSV file: the
      row count is `num_lines_written`. */
  method WriteHydroFile(unit: string, src: Source, sep: char, show: real -> string)
    returns (r: Result<nat, HydroError>, ts: CsvFile)
    ensures fresh(ts)
    ensures r.Ok? <==> HydroRows(unit, src).Ok?
    ensures r.Ok? ==> r.value == |HydroRows(unit, src).value|
                      && ts.lines == Lines(HydroRows(unit, src).value, LineOf(sep, show))
    ensures r.Err? ==> r.error == HydroRows(unit, src).error
  {
    var line := LineOf(sep, show);
    ts := new CsvFile();
    if unit != "GJ" {
      return Err(WrongUnit(unit)), ts;
    }
    if |src.gen| % 12 != 0 {
      return Err(NotMonthly(|src.gen|)), ts;
    }
    var n := 0;
    r := Ok(0);
    ghost var rows: seq<Row> := [];
    var y := src.weapBaseYear;
    while y < src.weapEndYear
      invariant src.weapBaseYear <= y
      invariant y <= src.weapEndYear || y == src.weapBaseYear
      invariant FileRows(src, y) == Ok(rows)
      invariant ts.lines == Lines(rows, line) && n == |rows|
      modifies ts
    {
      var yr := WriteYear(src, y, line, ts, rows);
      if yr.Err? {
        FileRowsErr(src, y + 1, src.weapEndYear);
        return Err(yr.error), ts;
      }
      rows := rows + yr.value;
      n := n + |yr.value|;
      y := y + 1;
    }
    r := Ok(n);
  }

  /** One pass of the year loop: the rows of a year with positive capacity are written. */
  method WriteYear(src: Source, y: int, line: Row -> string, ts: CsvFile, ghost rows: seq<Row>)
    returns (r: Result<seq<Row>, HydroError>)
    requires src.weapBaseYear <= y && FileRows(src, y) == Ok(rows)
    requires ts.lines == Lines(rows, line)
    modifies ts
    ensures r.Ok? ==> FileRows(src, y + 1) == Ok(rows + r.value) && ts.lines == Lines(rows + r.value, line)
    ensures r.Err? ==> FileRows(src, y + 1) == Err(r.error)
  {
    var cap := BranchCapacityOf(src, y);
    if cap > 0.0 {
      r := YearRowsOf(src, y, cap);
      if r.Ok? {
        WriteRows(ts, r.value, line, rows);
      }
    } else {
      r := Ok([]);
      assert rows + [] == rows;
    }
  }

  /** The capacity loop over the branch's LEAP plants. */
  method BranchCapacityOf(src: Source, y: int) returns (cap: real)
    ensures cap == BranchCapacity(src, y)
  {
    var year := y;
    if src.leapBaseYear > y {
      year := src.leapBaseYear;
    }
    if src.leapEndYear < y {
      year := src.leapEndYear;
    }
    cap := 0.0;
    var k := 0;
    while k < |src.hpps|
      invariant 0 <= k <= |src.hpps|
      invariant cap == Capacity(src.hpps[..k], year, src.capacity)
    {
      assert src.hpps[..k + 1][..k] == src.hpps[..k];
      cap := cap + src.capacity(src.hpps[k], year);
      k := k + 1;
    }
    assert src.hpps[..k] == src.hpps;
  }

  /** The timeslice loop of one year with positive capacity, up to the lines it writes. */
  method YearRowsOf(src: Source, y: int, cap: real) returns (r: Result<seq<Row>, HydroError>)
    requires src.weapBaseYear <= y && cap == BranchCapacity(src, y)
    ensures r == YearRows(src, y, |src.timeslices|)
  {
    var monthVals: map<int, PyNumber> := map[];
    var yr: seq<Row> := [];
    var k := 0;
    while k < |src.timeslices|
      invariant 0 <= k <= |src.timeslices|
      invariant YearRows(src, y, k) == Ok(yr)
      invariant Cached(src, y, cap, monthVals)
    {
      var row;
      row, monthVals := TimesliceRow(src, y, cap, src.timeslices[k], monthVals);
      YearRowsStep(src, y, k);
      if row.Err? {
        YearRowsErr(src, y, k + 1, |src.timeslices|);
        return Err(row.error);
      }
      yr := yr + [row.value];
      k := k + 1;
    }
    r := Ok(yr);
  }

  /** `ts.WriteLine` for each row, in order. */
  method WriteRows(ts: CsvFile, rows: seq<Row>, line: Row -> string, ghost prior: seq<Row>)
    requires ts.lines == Lines(prior, line)
    modifies ts
    ensures ts.lines == Lines(prior + rows, line)
  {
    var k := 0;
    assert prior + rows[..k] == prior;
    while k < |rows|
      invariant 0 <= k <= |rows|
      invariant ts.lines == Lines(prior + rows[..k], line)
    {
      ts.WriteLine(line(rows[k]));
      LinesSnoc(prior + rows[..k], rows[k], line);
      assert prior + rows[..k] + [rows[k]] == prior + rows[..k + 1];
      k := k + 1;
    }
    assert rows[..k] == rows;
  }

  /** `month_vals` holds each month's value once it has been computed. */
  predicate Cached(src: Source, y: int, cap: real, monthVals: map<int, PyNumber>)
    requires src.weapBaseYear <= y
  {
    forall m :: m in monthVals ==> 1 <= m && MonthValue(src, y, m, cap) == Ok(monthVals[m])
  }

  /** The body of the timeslice loop, up to the line written: the month of the timeslice,
      then its value from `month_vals` or from the generation, capped at 100. */
  method TimesliceRow(src: Source, y: int, cap: real, name: string, monthVals0: map<int, PyNumber>)
    returns (row: Result<Row, HydroError>, monthVals: map<int, PyNumber>)
    requires src.weapBaseYear <= y && cap == BranchCapacity(src, y)
    requires Cached(src, y, cap, monthVals0)
    ensures row == RowFor(src, y, name)
    ensures Cached(src, y, cap, monthVals)
  {
    monthVals := monthVals0;
    var colon := Find(name, ':');
    if colon < 0 {
      return Err(NoColon(name)), monthVals;
    }
    var monthNum := Timeslices.GetMonthNum(name[..colon]);
    if monthNum.None? {
      return Err(UnknownMonth(name[..colon])), monthVals;
    }
    var m := monthNum.value;
    var val;
    if m in monthVals {
      val := monthVals[m];
    } else {
      var idx := (y - src.weapBaseYear) * 12 + m - 1;
      if idx >= |src.gen| {
        return Err(NoGeneration(idx)), monthVals;
      }
      val := PyFloat(src.availability(src.gen[idx], y, m, cap));
      if val.f > 100.0 {
        val := PyInt(100);
      }
      monthVals := monthVals[m := val];
    }
    row := Ok(Row(y, name, val));
  }

  lemma YearRowsStep(src: Source, y: int, k: nat)
    requires src.weapBaseYear <= y && k < |src.timeslices|
    requires YearRows(src, y, k).Ok?
    ensures RowFor(src, y, src.timeslices[k]).Err? ==>
              YearRows(src, y, k + 1) == Err(RowFor(src, y, src.timeslices[k]).error)
    ensures RowFor(src, y, src.timeslices[k]).Ok? ==>
              YearRows(src, y, k + 1) == Ok(YearRows(src, y, k).value + [RowFor(src, y, src.timeslices[k]).value])
  {
  }

  /** A failed timeslice ends the year with that failure. */
  lemma {:induction false} YearRowsErr(src: Source, y: int, k: nat, j: nat)
    requires src.weapBaseYear <= y && k <= j <= |src.timeslices|
    requires YearRows(src, y, k).Err?
    ensures YearRows(src, y, j) == YearRows(src, y, k)
    decreases j - k
  {
    if k < j {
      YearRowsErr(src, y, k, j - 1);
      var prev := YearRows(src, y, j - 1);
      assert prev.Err?;
      assert YearRows(src, y, j) == prev;
    }
  }

  /** A failed year ends the file with that failure. */
  lemma {:induction false} FileRowsErr(src: Source, y: int, z: int)
    requires src.weapBaseYear <= y <= z
    requires FileRows(src, y).Err?
    ensures FileRows(src, z) == FileRows(src, y)
    decreases z - y
  {
    if y < z {
      FileRowsErr(src, y, z - 1);
      var prev := FileRows(src, z - 1);
      assert prev.Err?;
      assert FileRows(src, z) == prev;
    }
  }

  lemma LinesSnoc(rows: seq<Row>, row: Row, line: Row -> string)
    ensures Lines(rows + [row], line) == Lines(rows, line) + [line(row)]
  {
    assert (rows + [row])[..|rows|] == rows;
  }
}
