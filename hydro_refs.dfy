/** The hydropower availability loop over LEAP scenarios and WEAP hydropower branches
    (wave_integration.py): each file is named after the WEAP branch and the LEAP scenario,
    and only a file with rows becomes the Maximum Availability of the branch's LEAP plants. */
module HydroReferences {
  import opened Results
  import opened PyText
  import opened Hydro

  /** `hydro_availability_wbranch<id>_lscenario<id>.xlsx`. */
  function XlsxFileName(branchId: int, scenarioId: int): string {
    "hydro_availability_wbranch" + (IntToStr(branchId) + ("_lscenario" + (IntToStr(scenarioId) + ".xlsx")))
  }

  /** `ReadFromExcel(<file>, A1:C<n>)`: the first `n` rows of three columns. */
  function AvailabilityExpression(file: string, n: int): string {
    "ReadFromExcel(" + (file + (", A1:C" + (IntToStr(n) + ")")))
  }

  /** Different branches or scenarios never share a file. */
  lemma XlsxNamesDistinct(b1: int, s1: int, b2: int, s2: int)
    requires XlsxFileName(b1, s1) == XlsxFileName(b2, s2)
    ensures b1 == b2 && s1 == s2
  {
    IntToStrChars(b1);
    IntToStrChars(b2);
    NameParts(IntToStr(b1), IntToStr(s1), IntToStr(b2), IntToStr(s2));
  }

  /** The text between the fixed parts of a file name is determined by the name, as long as
      the branch part holds no `_`. */
  lemma NameParts(a1: string, c1: string, a2: string, c2: string)
    requires '_' !in a1 && '_' !in a2
    requires "hydro_availability_wbranch" + (a1 + ("_lscenario" + (c1 + ".xlsx")))
          == "hydro_availability_wbranch" + (a2 + ("_lscenario" + (c2 + ".xlsx")))
    ensures a1 == a2 && c1 == c2
  {
    var u1, u2 := "_lscenario" + (c1 + ".xlsx"), "_lscenario" + (c2 + ".xlsx");
    SamePrefix("hydro_availability_wbranch", a1 + u1, a2 + u2);
    FindAt(a1, '_', u1);
    FindAt(a2, '_', u2);
    assert a1 == (a1 + u1)[..|a1|];
    assert a2 == (a2 + u2)[..|a2|];
    SamePrefix(a1, u1, u2);
    SamePrefix("_lscenario", c1 + ".xlsx", c2 + ".xlsx");
    SameSuffix(c1, c2, ".xlsx");
  }

  lemma FindAt(a: string, c: char, b: string)
    requires c !in a && |b| > 0 && b[0] == c
    ensures Find(a + b, c) == |a|
  {
    assert (a + b)[|a|] == c;
    assert (a + b)[..|a|] == a;
  }

  lemma SamePrefix(p: string, x: string, y: string)
    requires p + x == p + y
    ensures x == y
  {
    assert x == (p + x)[|p|..];
    assert y == (p + y)[|p|..];
  }

  lemma SameSuffix(x: string, y: string, q: string)
    requires x + q == y + q
    ensures x == y
  {
    assert x == (x + q)[..|x|];
    assert y == (y + q)[..|y|];
  }

  /** The row count can be read back from the reference. */
  lemma AvailabilityReadsBack(file: string, n: int)
    ensures var e := AvailabilityExpression(file, n);
            |e| > |file| + 20 && e[..14] == "ReadFromExcel(" && e[14..14 + |file|] == file
            && ParseInt(e[|file| + 20..|e| - 1]) == Some(n)
  {
    var d := IntToStr(n);
    var r3 := d + ")";
    var r2 := ", A1:C" + r3;
    var r1 := file + r2;
    var e := "ReadFromExcel(" + r1;
    Parts("ReadFromExcel(", r1);
    Parts(file, r2);
    Parts(", A1:C", r3);
    Parts(d, ")");
    assert e[14..14 + |file|] == r1[..|file|];
    assert e[|file| + 20..|e| - 1] == r3[..|d|];
  }

  lemma Parts(p: string, x: string)
    ensures (p + x)[..|p|] == p && (p + x)[|p|..] == x
  {
  }

  /** The LEAP hydropower plants' Maximum Availability expressions, by plant and LEAP
      scenario. */
  class LeapHydroPlants {
    var maximumAvailability: map<(string, string), string>

    constructor(expressions: map<(string, string), string>)
      ensures maximumAvailability == expressions
    {
      maximumAvailability := expressions;
    }

    /** The update after a file with `n` rows: every plant of the branch reads it. */
    method PointAt(hpps: seq<string>, scenario: string, file: string, n: nat)
      modifies this
      ensures n == 0 ==> maximumAvailability == old(maximumAvailability)
      ensures n > 0 ==>
                maximumAvailability
                == Referenced(old(maximumAvailability), hpps, scenario, AvailabilityExpression(file, n), |hpps|)
    {
      if n > 0 {
        var expr := AvailabilityExpression(file, n);
        var k := 0;
        while k < |hpps|
          invariant 0 <= k <= |hpps|
          invariant maximumAvailability == Referenced(old(maximumAvailability), hpps, scenario, expr, k)
        {
          maximumAvailability := maximumAvailability[(hpps[k], scenario) := expr];
          k := k + 1;
        }
      }
    }
  }

  /** The expressions after the first `k` plants of `hpps` were pointed at `expr`. */
  function Referenced(m: map<(string, string), string>, hpps: seq<string>, scenario: string, expr: string,
                      k: nat): map<(string, string), string>
    requires k <= |hpps|
  {
    if k == 0 then m else Referenced(m, hpps, scenario, expr, k - 1)[(hpps[k - 1], scenario) := expr]
  }

  /** Each plant of the branch in this scenario reads the file; nothing else changes. */
  lemma {:induction false} ReferencedAt(m: map<(string, string), string>, hpps: seq<string>, scenario: string,
                                        expr: string, k: nat, key: (string, string))
    requires k <= |hpps|
    ensures key.1 == scenario && key.0 in hpps[..k] ==>
              key in Referenced(m, hpps, scenario, expr, k) && Referenced(m, hpps, scenario, expr, k)[key] == expr
    ensures !(key.1 == scenario && key.0 in hpps[..k]) ==>
              (key in Referenced(m, hpps, scenario, expr, k) <==> key in m)
              && (key in m ==> Referenced(m, hpps, scenario, expr, k)[key] == m[key])
  {
    if k > 0 {
      ReferencedAt(m, hpps, scenario, expr, k - 1, key);
      assert hpps[..k] == hpps[..k - 1] + [hpps[k - 1]];
    }
  }

  /** A WEAP hydropower branch of the configuration: its id, the unit of its Hydropower
      Generation and the LEAP plants it feeds. */
  datatype HydroBranch = HydroBranch(id: int, unit: string, hpps: seq<string>)

  /** What the loop reads from the two applications. */
  datatype HydroRun = HydroRun(
    weapBaseYear: int, weapEndYear: int, leapBaseYear: int, leapEndYear: int,
    timeslices: seq<string>,
    generation: (int, string) -> seq<real>,       // by branch id and WEAP scenario, first value dropped
    capacity: (string, string, int) -> real,      // by LEAP scenario, plant and year
    availability: (real, int, int, real) -> real,
    scenarioId: string -> int)                    // LEAP scenario ids

  function SourceFor(run: HydroRun, b: HydroBranch, leapScenario: string, weapScenario: string): Source {
    Source(run.generation(b.id, weapScenario), run.weapBaseYear, run.weapEndYear,
           run.leapBaseYear, run.leapEndYear, b.hpps, (p, y) => run.capacity(leapScenario, p, y),
           run.timeslices, run.availability)
  }

  /** The expressions so far, and the error that ended the run. */
  datatype Moves = Moves(expressions: map<(string, string), string>, failure: Option<HydroError>)

  /** One branch for one scenario pair: the file's rows, then the plants' references. */
  function BranchMove(run: HydroRun, b: HydroBranch, leapScenario: string, weapScenario: string,
                      m: map<(string, string), string>): Moves {
    var rows := HydroRows(b.unit, SourceFor(run, b, leapScenario, weapScenario));
    if rows.Err? then Moves(m, Some(rows.error))
    else if |rows.value| > 0 then
      var file := XlsxFileName(b.id, run.scenarioId(leapScenario));
      Moves(Referenced(m, b.hpps, leapScenario, AvailabilityExpression(file, |rows.value|), |b.hpps|), None)
    else Moves(m, None)
  }

  /** The first `k` branches for one scenario pair; an error ends the run. */
  function BranchMoves(run: HydroRun, branches: seq<HydroBranch>, leapScenario: string, weapScenario: string,
                       m: map<(string, string), string>, k: nat): Moves
    requires k <= |branches|
  {
    MovesThrough((b, m') => BranchMove(run, b, leapScenario, weapScenario, m'), branches, m, k)
  }

  /** The first `k` items, each moved by `move`, stopping at the first error. */
  function MovesThrough<T>(move: (T, map<(string, string), string>) -> Moves, items: seq<T>,
                           m: map<(string, string), string>, k: nat): Moves
    requires k <= |items|
  {
    if k == 0 then Moves(m, None)
    else
      var prev := MovesThrough(move, items, m, k - 1);
      if prev.failure.Some? then prev
      else move(items[k - 1], prev.expressions)
  }

  /** The LEAP scenario paired with each WEAP scenario, by position. */
  function ScenarioPairs(leapScenarios: seq<string>, weapScenarios: seq<string>): (ps: seq<(string, string)>)
    requires |weapScenarios| <= |leapScenarios|
    ensures |ps| == |weapScenarios|
    ensures forall i :: 0 <= i < |ps| ==> ps[i] == (leapScenarios[i], weapScenarios[i])
  {
    seq(|weapScenarios|, i requires 0 <= i < |weapScenarios| => (leapScenarios[i], weapScenarios[i]))
  }

  /** The first `n` scenario pairs, each over all the branches. */
  function ScenarioMoves(run: HydroRun, branches: seq<HydroBranch>, leapScenarios: seq<string>,
                         weapScenarios: seq<string>, m: map<(string, string), string>, n: nat): Moves
    requires n <= |weapScenarios| <= |leapScenarios|
  {
    MovesThrough((p: (string, string), m') => BranchMoves(run, branches, p.0, p.1, m', |branches|),
                 ScenarioPairs(leapScenarios, weapScenarios), m, n)
  }

  /** The loop over WEAP scenarios and hydropower branches; `sep` is the list separator and
      `show` prints a float. */
  method MoveHydroAvailability(run: HydroRun, branches: seq<HydroBranch>, leapScenarios: seq<string>,
                               weapScenarios: seq<string>, sep: char, show: real -> string, plants: LeapHydroPlants)
    returns (failure: Option<HydroError>)
    requires |weapScenarios| <= |leapScenarios|
    modifies plants
    ensures Moves(plants.maximumAvailability, failure)
         == ScenarioMoves(run, branches, leapScenarios, weapScenarios, old(plants.maximumAvailability),
                          |weapScenarios|)
  {
    ghost var m0 := plants.maximumAvailability;
    failure := None;
    var i := 0;
    while i < |weapScenarios|
      invariant 0 <= i <= |weapScenarios| && failure.None?
      invariant ScenarioMoves(run, branches, leapScenarios, weapScenarios, m0, i)
             == Moves(plants.maximumAvailability, None)
    {
      ScenarioMovesNext(run, branches, leapScenarios, weapScenarios, m0, i);
      failure := MoveBranches(run, branches, leapScenarios[i], weapScenarios[i], sep, show, plants);
      if failure.Some? {
        ScenarioMovesStop(run, branches, leapScenarios, weapScenarios, m0, i + 1);
        return;
      }
      i := i + 1;
    }
  }

  /** The loop over the hydropower branches for one scenario pair. */
  method MoveBranches(run: HydroRun, branches: seq<HydroBranch>, leapScenario: string, weapScenario: string,
                      sep: char, show: real -> string, plants: LeapHydroPlants)
    returns (failure: Option<HydroError>)
    modifies plants
    ensures Moves(plants.maximumAvailability, failure)
         == BranchMoves(run, branches, leapScenario, weapScenario, old(plants.maximumAvailability), |branches|)
  {
    ghost var m0 := plants.maximumAvailability;
    failure := None;
    var k := 0;
    while k < |branches|
      invariant 0 <= k <= |branches| && failure.None?
      invariant BranchMoves(run, branches, leapScenario, weapScenario, m0, k)
             == Moves(plants.maximumAvailability, None)
    {
      BranchMovesNext(run, branches, leapScenario, weapScenario, m0, k);
      failure := MoveBranch(run, branches[k], leapScenario, weapScenario, sep, show, plants);
      if failure.Some? {
        BranchMovesStop(run, branches, leapScenario, weapScenario, m0, k + 1);
        return;
      }
      k := k + 1;
    }
  }

  /** One branch for one scenario pair: the file, then the plants' references. */
  method MoveBranch(run: HydroRun, b: HydroBranch, leapScenario: string, weapScenario: string,
                    sep: char, show: real -> string, plants: LeapHydroPlants)
    returns (failure: Option<HydroError>)
    modifies plants
    ensures Moves(plants.maximumAvailability, failure)
         == BranchMove(run, b, leapScenario, weapScenario, old(plants.maximumAvailability))
  {
    var n, ts := WriteHydroFile(b.unit, SourceFor(run, b, leapScenario, weapScenario), sep, show);
    if n.Err? {
      return Some(n.error);
    }
    failure := None;
    plants.PointAt(b.hpps, leapScenario, XlsxFileName(b.id, run.scenarioId(leapScenario)), n.value);
  }

  lemma BranchMovesStop(run: HydroRun, branches: seq<HydroBranch>, leapScenario: string,
                        weapScenario: string, m: map<(string, string), string>, k: nat)
    requires k <= |branches|
    requires BranchMoves(run, branches, leapScenario, weapScenario, m, k).failure.Some?
    ensures BranchMoves(run, branches, leapScenario, weapScenario, m, |branches|)
         == BranchMoves(run, branches, leapScenario, weapScenario, m, k)
  {
    MovesThroughStop((b, m') => BranchMove(run, b, leapScenario, weapScenario, m'), branches, m, k);
  }

  lemma BranchMovesNext(run: HydroRun, branches: seq<HydroBranch>, leapScenario: string,
                        weapScenario: string, m: map<(string, string), string>, k: nat)
    requires k < |branches|
    requires BranchMoves(run, branches, leapScenario, weapScenario, m, k).failure.None?
    ensures BranchMoves(run, branches, leapScenario, weapScenario, m, k + 1)
         == BranchMove(run, branches[k], leapScenario, weapScenario,
                       BranchMoves(run, branches, leapScenario, weapScenario, m, k).expressions)
  {
  }

  /** Once an item fails, the later items change nothing. */
  lemma {:induction false} MovesThroughStop<T>(move: (T, map<(string, string), string>) -> Moves,
                                               items: seq<T>, m: map<(string, string), string>, k: nat)
    requires k <= |items|
    requires MovesThrough(move, items, m, k).failure.Some?
    ensures MovesThrough(move, items, m, |items|) == MovesThrough(move, items, m, k)
    decreases |items| - k
  {
    if k < |items| {
      assert MovesThrough(move, items, m, k + 1) == MovesThrough(move, items, m, k);
      MovesThroughStop(move, items, m, k + 1);
    }
  }

  lemma ScenarioMovesNext(run: HydroRun, branches: seq<HydroBranch>, leapScenarios: seq<string>,
                          weapScenarios: seq<string>, m: map<(string, string), string>, n: nat)
    requires n < |weapScenarios| <= |leapScenarios|
    requires ScenarioMoves(run, branches, leapScenarios, weapScenarios, m, n).failure.None?
    ensures ScenarioMoves(run, branches, leapScenarios, weapScenarios, m, n + 1)
         == BranchMoves(run, branches, leapScenarios[n], weapScenarios[n],
                        ScenarioMoves(run, branches, leapScenarios, weapScenarios, m, n).expressions, |branches|)
  {
  }

  lemma ScenarioMovesStop(run: HydroRun, branches: seq<HydroBranch>, leapScenarios: seq<string>,
                          weapScenarios: seq<string>, m: map<(string, string), string>, n: nat)
    requires n <= |weapScenarios| <= |leapScenarios|
    requires ScenarioMoves(run, branches, leapScenarios, weapScenarios, m, n).failure.Some?
    ensures ScenarioMoves(run, branches, leapScenarios, weapScenarios, m, |weapScenarios|)
         == ScenarioMoves(run, branches, leapScenarios, weapScenarios, m, n)
  {
    MovesThroughStop((p: (string, string), m') => BranchMoves(run, branches, p.0, p.1, m', |branches|),
                     ScenarioPairs(leapScenarios, weapScenarios), m, n);
  }
}
