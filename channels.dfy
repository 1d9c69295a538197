/** The water-requirement channels from WEAP to LEAP (wave_integration.py): for every
    scenario and region, an `Interp(...)` expression is rebuilt from scratch with one pair
    per WEAP year, the value being the region's summed supply requirement, and written to
    a LEAP branch variable. */
module Channels {
  import opened Results
  import opened PyText
  import opened InterpSplit
  import opened InterpRoundTrip

  /** `val` after the branch loop: the supply requirements of the region's WEAP branches
      for one scenario and year, added in order to the `int` 0. A region without branches
      keeps the `int` 0; any branch makes the total a `float`. */
  function Total(branches: seq<string>, scenario: string, y: int, supply: (string, string, int) -> real): (r: PyNumber)
    ensures r.PyInt? <==> branches == []
    ensures r.PyInt? ==> r == PyInt(0)
    decreases |branches|
  {
    if branches == [] then PyInt(0)
    else Add(Total(branches[..|branches| - 1], scenario, y, supply), PyFloat(supply(branches[|branches| - 1], scenario, y)))
  }

  /** The value text written for each year: `str(val)`, with the float rendering supplied. */
  function YearValues(branches: seq<string>, scenario: string, supply: (string, string, int) -> real,
                      show: real -> string): int -> string
  {
    y => Str(Total(branches, scenario, y, supply), show)
  }

  /** The expression text: `Interp(` and one `year sep value sep` per year, then the last
      character replaced by `)`. */
  function RebuildText(baseYear: int, endYear: int, sep: char, values: int -> string): string {
    var s := "Interp(" + Render(WindowPairs(baseYear, endYear, values), sep);
    s[..|s| - 1] + ")"
  }

  method RegionTotal(branches: seq<string>, scenario: string, y: int, supply: (string, string, int) -> real)
    returns (val: PyNumber)
    ensures val == Total(branches, scenario, y, supply)
  {
    val := PyInt(0);
    var k := 0;
    while k < |branches|
      invariant 0 <= k <= |branches|
      invariant val == Total(branches[..k], scenario, y, supply)
    {
      assert branches[..k + 1][..k] == branches[..k];
      val := Add(val, PyFloat(supply(branches[k], scenario, y)));
      k := k + 1;
    }
    assert branches[..k] == branches;
  }

  /** The `expr` loop for one scenario and region. */
  method RebuildExpression(baseYear: int, endYear: int, sep: char, branches: seq<string>, scenario: string,
                           supply: (string, string, int) -> real, show: real -> string)
    returns (expr: string)
    ensures expr == RebuildText(baseYear, endYear, sep, YearValues(branches, scenario, supply, show))
  {
    ghost var values := YearValues(branches, scenario, supply, show);
    expr := "Interp(";
    var y := baseYear;
    while y < endYear + 1
      invariant y == baseYear || baseYear <= y <= endYear + 1
      invariant expr == "Interp(" + Render(WindowPairs(baseYear, y - 1, values), sep)
    {
      var val := RegionTotal(branches, scenario, y, supply);
      var piece := IntToStr(y) + [sep] + Str(val, show) + [sep];
      RebuildStep("Interp(", baseYear, y, sep, values, piece);
      expr := expr + piece;
      y := y + 1;
    }
    assert WindowPairs(baseYear, y - 1, values) == WindowPairs(baseYear, endYear, values);
    expr := expr[..|expr| - 1] + ")";
  }

  lemma RebuildStep(head: string, baseYear: int, y: int, sep: char, values: int -> string, piece: string)
    requires baseYear <= y
    requires piece == IntToStr(y) + [sep] + values(y) + [sep]
    ensures head + Render(WindowPairs(baseYear, y - 1, values), sep) + piece
         == head + Render(WindowPairs(baseYear, y, values), sep)
  {
    var rendered := Render(WindowPairs(baseYear, y - 1, values), sep);
    assert Render(WindowPairs(baseYear, y, values), sep) == rendered + piece by {
      WindowStep(baseYear, y, values, sep);
    }
    assert head + rendered + piece == head + (rendered + piece);
  }

  /** With at least one year, the rebuilt text is the Interp expression of the year pairs
      with no growth rate and `)` as its closing text; with none it is `Interp)`, the `(`
      having been cut as if it were a separator. */
  lemma RebuiltShape(baseYear: int, endYear: int, sep: char, values: int -> string)
    ensures baseYear <= endYear ==>
              RebuildText(baseYear, endYear, sep, values) == Expression(WindowPairs(baseYear, endYear, values), None, ")", sep)
    ensures baseYear > endYear ==> RebuildText(baseYear, endYear, sep, values) == "Interp)"
  {
    var ps := WindowPairs(baseYear, endYear, values);
    if baseYear <= endYear {
      JoinPairTokensLast(ps, sep);
      assert Tokens(ps, None) == PairTokens(ps);
      var j := Join(PairTokens(ps), sep);
      var s := "Interp(" + Render(ps, sep);
      assert s == "Interp(" + j + [sep];
      assert s[..|s| - 1] == "Interp(" + j;
    } else {
      assert ps == [];
    }
  }

  /** A rebuilt expression is one the splitter reads whole as the window: splitting it
      around its own years keeps nothing but `Interp(` and `)`, and pushing other values for
      those years gives the expression rebuilt from them. */
  lemma RebuiltReadsBack(baseYear: int, endYear: int, sep: char, values: int -> string, newValues: int -> string)
    requires baseYear <= endYear && GoodSeparator(sep)
    requires CleanPairs(WindowPairs(baseYear, endYear, values), sep)
    requires CleanPairs(WindowPairs(baseYear, endYear, newValues), sep)
    ensures var r := SplitSpec(RebuildText(baseYear, endYear, sep, values), baseYear, endYear, sep);
            r == Ok(Parts("Interp(", ")"))
            && Splice(r.value.prefix, Render(WindowPairs(baseYear, endYear, newValues), sep), r.value.suffix, sep)
               == RebuildText(baseYear, endYear, sep, newValues)
  {
    var cur := WindowPairs(baseYear, endYear, values);
    var win := WindowPairs(baseYear, endYear, newValues);
    RebuiltShape(baseYear, endYear, sep, values);
    RebuiltShape(baseYear, endYear, sep, newValues);
    assert [] + cur + [] == cur && [] + win + [] == win;
    assert cur[0].year == baseYear;
    EmptySides(sep);
    SpliceReplacesWindow([], cur, [], None, ")", sep, baseYear, endYear, newValues);
  }

  lemma EmptySides(sep: char)
    requires GoodSeparator(sep)
    ensures TrimLast("Interp(" + Render([], sep), sep) == "Interp("
    ensures TrimLast(Render([], sep) + GrowthText(None), sep) + ")" == ")"
  {
    assert Render([], sep) == [];
  }

  /** One LEAP branch variable's expressions, by region and scenario (the cell that
      `ActiveRegion` and `ActiveScenario` select). */
  class LeapBranchVariable {
    var expression: map<(string, string), string>

    constructor(expressions: map<(string, string), string>)
      ensures expression == expressions
    {
      expression := expressions;
    }

    /** The channel's loops: for each scenario pair and each region, the rebuilt expression
        from the WEAP scenario's results goes to the region and LEAP scenario. */
    method WriteRebuiltExpressions(leapScenarios: seq<string>, weapScenarios: seq<string>,
                                   regions: seq<string>, regionBranches: string -> seq<string>,
                                   baseYear: int, endYear: int, sep: char,
                                   supply: (string, string, int) -> real, show: real -> string)
      requires |weapScenarios| <= |leapScenarios|
      modifies this
      ensures expression == Written(old(expression), leapScenarios, weapScenarios, |weapScenarios|, regions,
                                    ChannelTexts(regionBranches, baseYear, endYear, sep, supply, show))
    {
      ghost var m0 := expression;
      ghost var text := ChannelTexts(regionBranches, baseYear, endYear, sep, supply, show);
      var i := 0;
      while i < |weapScenarios|
        invariant 0 <= i <= |weapScenarios|
        invariant expression == Written(m0, leapScenarios, weapScenarios, i, regions, text)
      {
        ghost var before := expression;
        var k := 0;
        while k < |regions|
          invariant 0 <= k <= |regions|
          invariant expression == RegionWrites(before, leapScenarios[i], weapScenarios[i], regions, k, text)
        {
          var r := regions[k];
          var expr := RebuildExpression(baseYear, endYear, sep, regionBranches(r), weapScenarios[i], supply, show);
          assert expr == text(r, weapScenarios[i]);
          expression := expression[(r, leapScenarios[i]) := expr];
          k := k + 1;
        }
        i := i + 1;
      }
    }
  }

  /** The expression the channel writes for region `r` from WEAP scenario `weap`. */
  function ChannelText(r: string, weap: string, regionBranches: string -> seq<string>, baseYear: int,
                       endYear: int, sep: char, supply: (string, string, int) -> real,
                       show: real -> string): string
  {
    RebuildText(baseYear, endYear, sep, YearValues(regionBranches(r), weap, supply, show))
  }

  /** `ChannelText` as a function of the region and the WEAP scenario. */
  function ChannelTexts(regionBranches: string -> seq<string>, baseYear: int, endYear: int, sep: char,
                        supply: (string, string, int) -> real, show: real -> string): (string, string) -> string
  {
    (r: string, weap: string) => ChannelText(r, weap, regionBranches, baseYear, endYear, sep, supply, show)
  }

  /** The writes for one scenario pair over the first `k` regions, `text(r, weap)` being the
      expression written for region `r`. */
  function RegionWrites(m: map<(string, string), string>, leap: string, weap: string, regions: seq<string>,
                        k: nat, text: (string, string) -> string): map<(string, string), string>
    requires k <= |regions|
  {
    if k == 0 then m
    else RegionWrites(m, leap, weap, regions, k - 1, text)[(regions[k - 1], leap) := text(regions[k - 1], weap)]
  }

  /** The writes for the first `n` scenario pairs. */
  function Written(m: map<(string, string), string>, leapScenarios: seq<string>, weapScenarios: seq<string>,
                   n: nat, regions: seq<string>, text: (string, string) -> string): map<(string, string), string>
    requires n <= |weapScenarios| <= |leapScenarios|
  {
    if n == 0 then m
    else
      RegionWrites(Written(m, leapScenarios, weapScenarios, n - 1, regions, text),
                   leapScenarios[n - 1], weapScenarios[n - 1], regions, |regions|, text)
  }

  lemma {:induction false} RegionWritesAt(m: map<(string, string), string>, leap: string, weap: string,
                                          regions: seq<string>, k: nat, text: (string, string) -> string,
                                          key: (string, string))
    requires k <= |regions|
    ensures var w := RegionWrites(m, leap, weap, regions, k, text);
            if key.1 == leap && key.0 in regions[..k]
            then key in w && w[key] == text(key.0, weap)
            else (key in w <==> key in m) && (key in m ==> w[key] == m[key])
  {
    if k > 0 {
      RegionWritesAt(m, leap, weap, regions, k - 1, text, key);
      assert regions[..k] == regions[..k - 1] + [regions[k - 1]];
    }
  }

  /** With distinct LEAP scenario names, every region of every mapped scenario holds the
      expression written from its WEAP partner, and every other cell is as before. */
  lemma {:induction false} WrittenAt(m: map<(string, string), string>, leapScenarios: seq<string>,
                                     weapScenarios: seq<string>, n: nat, regions: seq<string>,
                                     text: (string, string) -> string, key: (string, string))
    requires n <= |weapScenarios| <= |leapScenarios|
    requires forall i, j :: 0 <= i < j < |leapScenarios| ==> leapScenarios[i] != leapScenarios[j]
    ensures var w := Written(m, leapScenarios, weapScenarios, n, regions, text);
            forall i :: 0 <= i < n && key == (key.0, leapScenarios[i]) && key.0 in regions ==>
              key in w && w[key] == text(key.0, weapScenarios[i])
    ensures var w := Written(m, leapScenarios, weapScenarios, n, regions, text);
            (key.0 !in regions || key.1 !in leapScenarios[..n]) ==>
              (key in w <==> key in m) && (key in m ==> w[key] == m[key])
  {
    if n > 0 {
      var prev := Written(m, leapScenarios, weapScenarios, n - 1, regions, text);
      WrittenAt(m, leapScenarios, weapScenarios, n - 1, regions, text, key);
      RegionWritesAt(prev, leapScenarios[n - 1], weapScenarios[n - 1], regions, |regions|, text, key);
      assert regions[..|regions|] == regions;
      assert leapScenarios[..n] == leapScenarios[..n - 1] + [leapScenarios[n - 1]];
    }
  }
}
