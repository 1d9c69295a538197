/** `add_leap_data_to_weap_interp`: LEAP results for the calculated years are written into
    the Interp expression a WEAP variable holds in each scenario, keeping the pairs before
    and after the LEAP window. */
module WeapPush {
  import opened Results
  import opened PyText
  import opened InterpSplit
  import opened InterpRoundTrip

  const CurrentAccounts: string := "Current Accounts"

  /** Why a push stops. A failed guard ends the run: with `exit()` in wave_integration.py:244,
      and with a NameError in utils/leap_weap.py:67, where `_` and `sys` are not defined, so
      building the message raises before `sys.exit` is reached. Either way no expression is
      written by that iteration. */
  datatype PushError =
    | MissingWeapScenario(index: nat)     // `weap_scenarios_local[i]` raised IndexError
    | UnknownScenario(name: string)       // WEAP has no such scenario for the variable
    | NotInterp(name: string)             // the guard fails: the expression is not `Interp...`
    | BadToken(token: string)             // `int()` raised ValueError inside the splitter

  /** The state after a push: every scenario's expression and, when it stopped early,
      why. */
  datatype Pushed = Pushed(expressions: map<string, string>, status: Option<PushError>)

  /** `expr[0:6] == 'Interp'`: case-sensitive, and false for text shorter than six. */
  predicate IsInterp(e: string) {
    |e| >= 6 && e[..6] == "Interp"
  }

  /** The values LEAP reports for one scenario, year by year, as text. */
  function ScenarioValues(values: (string, int) -> string, scenario: string): int -> string {
    y => values(scenario, y)
  }

  /** One expression pushed: the guard, the split, and the splice of the window's new
      pairs. A successful push leaves an expression that passes the guard again. */
  function Update(e: string, name: string, startyear: int, endyear: int, sep: char,
                  data: int -> string): (r: Result<string, PushError>)
    ensures r.Err? <==> !IsInterp(e) || SplitSpec(e, startyear, endyear, sep).Err?
    ensures r.Ok? ==> IsInterp(r.value)
  {
    if !IsInterp(e) then Err(NotInterp(name))
    else
      match SplitSpec(e, startyear, endyear, sep)
      case Err(BadYear(t)) => Err(BadToken(t))
      case Ok(parts) =>
        var s := Splice(parts.prefix, Render(WindowPairs(startyear, endyear, data), sep), parts.suffix, sep);
        SpliceKeepsInterp(parts.prefix, Render(WindowPairs(startyear, endyear, data), sep), parts.suffix, sep);
        Ok(s)
  }

  lemma SpliceKeepsInterp(prefix: string, newData: string, suffix: string, sep: char)
    requires |prefix| >= 6 && prefix[..6] == "Interp" && suffix != []
    ensures IsInterp(Splice(prefix, newData, suffix, sep))
  {
    var assembled := if prefix[|prefix| - 1] == '(' then prefix + newData else prefix + [sep] + newData;
    assert |assembled| >= 7 ==> assembled[..6] == prefix[..6];
    if prefix[|prefix| - 1] == '(' {
      assert prefix[5] == 'p';
      assert |prefix| >= 7;
    }
    var cut := if suffix[0] == ')' then assembled[..|assembled| - 1] else assembled;
    assert cut[..6] == prefix[..6];
    assert Splice(prefix, newData, suffix, sep) == cut + suffix;
  }

  /** Iteration `i` of the scenario loop. */
  function PushStep(m: map<string, string>, leap: seq<string>, weap: seq<string>, i: nat,
                    startyear: int, endyear: int, sep: char,
                    values: (string, int) -> string): Result<map<string, string>, PushError>
    requires i < |leap|
  {
    if i >= |weap| then Err(MissingWeapScenario(i))
    else if weap[i] !in m then Err(UnknownScenario(weap[i]))
    else
      match Update(m[weap[i]], weap[i], startyear, endyear, sep, ScenarioValues(values, leap[i]))
      case Err(e) => Err(e)
      case Ok(s) => Ok(m[weap[i] := s])
  }

  /** The scenario loop's body as a function of the expressions and the iteration. */
  function PushStepOf(leap: seq<string>, weap: seq<string>, startyear: int, endyear: int, sep: char,
                      values: (string, int) -> string): (map<string, string>, nat) -> Result<map<string, string>, PushError>
  {
    (m: map<string, string>, j: nat) =>
      if j < |leap| then PushStep(m, leap, weap, j, startyear, endyear, sep, values)
      else Err(MissingWeapScenario(j))
  }

  /** Iterations `i` to `n - 1` of a loop whose body is `step`: the first failure ends the
      loop, and what was written before it stays written. */
  function Steps(step: (map<string, string>, nat) -> Result<map<string, string>, PushError>,
                 m: map<string, string>, i: nat, n: nat): Pushed
    decreases n - i
  {
    if i >= n then Pushed(m, None)
    else
      match step(m, i)
      case Err(e) => Pushed(m, Some(e))
      case Ok(m2) => Steps(step, m2, i + 1, n)
  }

  /** The scenario loop from iteration `i` on: each iteration writes one expression; the
      first failure ends the procedure, and what was written before it stays written. */
  function PushFrom(m: map<string, string>, leap: seq<string>, weap: seq<string>, i: nat,
                    startyear: int, endyear: int, sep: char,
                    values: (string, int) -> string): Pushed
    decreases |leap| - i
  {
    if i >= |leap| then Pushed(m, None)
    else
      match PushStep(m, leap, weap, i, startyear, endyear, sep, values)
      case Err(e) => Pushed(m, Some(e))
      case Ok(m2) => PushFrom(m2, leap, weap, i + 1, startyear, endyear, sep, values)
  }

  /** The scenario loop is a loop of steps whose body is `PushStep`. */
  lemma {:induction false} PushFromSteps(m: map<string, string>, leap: seq<string>, weap: seq<string>, i: nat,
                                         startyear: int, endyear: int, sep: char,
                                         values: (string, int) -> string)
    ensures PushFrom(m, leap, weap, i, startyear, endyear, sep, values)
         == Steps(PushStepOf(leap, weap, startyear, endyear, sep, values), m, i, |leap|)
    decreases |leap| - i
  {
    if i < |leap| {
      var step := PushStep(m, leap, weap, i, startyear, endyear, sep, values);
      if step.Ok? {
        PushFromSteps(step.value, leap, weap, i + 1, startyear, endyear, sep, values);
      }
    }
  }

  lemma GoesOn(m: map<string, string>, leap: seq<string>, weap: seq<string>, i: nat,
               startyear: int, endyear: int, sep: char, values: (string, int) -> string)
    requires i < |leap|
    requires PushStep(m, leap, weap, i, startyear, endyear, sep, values).Ok?
    ensures PushFrom(m, leap, weap, i, startyear, endyear, sep, values)
         == PushFrom(PushStep(m, leap, weap, i, startyear, endyear, sep, values).value,
                     leap, weap, i + 1, startyear, endyear, sep, values)
  {
  }

  lemma PushDone(m: map<string, string>, leap: seq<string>, weap: seq<string>,
                 startyear: int, endyear: int, sep: char, values: (string, int) -> string)
    ensures PushFrom(m, leap, weap, |leap|, startyear, endyear, sep, values) == Pushed(m, None)
  {
  }

  /** Iteration `i` on its own: the loop run over that one iteration. */
  function PushOne(m: map<string, string>, leap: seq<string>, weap: seq<string>, i: nat,
                   startyear: int, endyear: int, sep: char, values: (string, int) -> string): Pushed
    requires i < |leap|
  {
    PushFrom(m, leap[..i + 1], weap, i, startyear, endyear, sep, values)
  }

  /** One iteration writes the expression of its WEAP scenario, or fails and leaves every
      expression as it was. */
  lemma PushOneStep(m: map<string, string>, leap: seq<string>, weap: seq<string>, i: nat,
                    startyear: int, endyear: int, sep: char, values: (string, int) -> string)
    requires i < |leap|
    ensures var r := PushOne(m, leap, weap, i, startyear, endyear, sep, values);
            if StepOk(m, leap, weap, i, startyear, endyear, sep, values) then
              r.status == None
              && r.expressions == m[weap[i] := Update(m[weap[i]], weap[i], startyear, endyear, sep,
                                                      ScenarioValues(values, leap[i])).value]
            else r.status.Some? && r.expressions == m
  {
    PushOneIsStep(m, leap, weap, i, startyear, endyear, sep, values);
    StepOkIff(m, leap, weap, i, startyear, endyear, sep, values);
    if StepOk(m, leap, weap, i, startyear, endyear, sep, values) {
      StepWritesOne(m, leap, weap, i, startyear, endyear, sep, values);
    }
  }

  lemma PushOneIsStep(m: map<string, string>, leap: seq<string>, weap: seq<string>, i: nat,
                      startyear: int, endyear: int, sep: char, values: (string, int) -> string)
    requires i < |leap|
    ensures var step := PushStep(m, leap, weap, i, startyear, endyear, sep, values);
            PushOne(m, leap, weap, i, startyear, endyear, sep, values)
            == if step.Ok? then Pushed(step.value, None) else Pushed(m, Some(step.error))
  {
    var leap1 := leap[..i + 1];
    var step := PushStep(m, leap, weap, i, startyear, endyear, sep, values);
    assert PushStep(m, leap1, weap, i, startyear, endyear, sep, values) == step by {
      assert leap1[i] == leap[i];
    }
    if step.Ok? {
      assert PushFrom(step.value, leap1, weap, i + 1, startyear, endyear, sep, values) == Pushed(step.value, None);
    }
  }

  /** The loop after iteration `i`: stopped by its failure, or going on from its result. */
  lemma StepThenLoop(m: map<string, string>, leap: seq<string>, weap: seq<string>, i: nat,
                     startyear: int, endyear: int, sep: char, values: (string, int) -> string)
    requires i < |leap|
    ensures var step := PushStep(m, leap, weap, i, startyear, endyear, sep, values);
            PushFrom(m, leap, weap, i, startyear, endyear, sep, values)
            == if step.Err? then Pushed(m, Some(step.error))
               else PushFrom(step.value, leap, weap, i + 1, startyear, endyear, sep, values)
  {
  }

  lemma StepWrites(m: map<string, string>, leap: seq<string>, weap: seq<string>, i: nat,
                   startyear: int, endyear: int, sep: char, values: (string, int) -> string)
    requires i < |leap| && StepOk(m, leap, weap, i, startyear, endyear, sep, values)
    ensures PushFrom(m, leap, weap, i, startyear, endyear, sep, values)
         == PushFrom(m[weap[i] := Update(m[weap[i]], weap[i], startyear, endyear, sep,
                                         ScenarioValues(values, leap[i])).value],
                     leap, weap, i + 1, startyear, endyear, sep, values)
  {
    StepOkIff(m, leap, weap, i, startyear, endyear, sep, values);
    GoesOn(m, leap, weap, i, startyear, endyear, sep, values);
  }

  /** An iteration succeeds exactly when it finds its scenario and the expression passes the
      guard and splits. */
  lemma StepOkIff(m: map<string, string>, leap: seq<string>, weap: seq<string>, i: nat,
                  startyear: int, endyear: int, sep: char, values: (string, int) -> string)
    requires i < |leap|
    ensures PushStep(m, leap, weap, i, startyear, endyear, sep, values).Ok?
        <==> StepOk(m, leap, weap, i, startyear, endyear, sep, values)
  {
  }

  /** What `add_leap_data_to_weap_interp` does: Current Accounts is appended to local copies
      of both scenario lists, and scenario `i` of LEAP feeds scenario `i` of WEAP. */
  function Push(m: map<string, string>, leapScenarios: seq<string>, weapScenarios: seq<string>,
                startyear: int, endyear: int, sep: char, values: (string, int) -> string): Pushed
  {
    PushFrom(m, leapScenarios + [CurrentAccounts], weapScenarios + [CurrentAccounts], 0,
             startyear, endyear, sep, values)
  }

  // ---- loops of steps ----

  /** Steps that keep the set of keys make a loop that keeps it. */
  lemma {:induction false} StepsKeepKeys(step: (map<string, string>, nat) -> Result<map<string, string>, PushError>,
                                         m: map<string, string>, i: nat, n: nat)
    requires forall m2, j :: i <= j < n && step(m2, j).Ok? ==> step(m2, j).value.Keys == m2.Keys
    ensures Steps(step, m, i, n).expressions.Keys == m.Keys
    decreases n - i
  {
    if i < n {
      if step(m, i).Ok? {
        StepsKeepKeys(step, step(m, i).value, i + 1, n);
      }
    }
  }

  /** Steps that leave key `k` alone make a loop that leaves it alone. */
  lemma {:induction false} StepsLeave(step: (map<string, string>, nat) -> Result<map<string, string>, PushError>,
                                      m: map<string, string>, i: nat, n: nat, k: string)
    requires k in m
    requires forall m2, j :: i <= j < n && k in m2 && step(m2, j).Ok? ==>
               k in step(m2, j).value && step(m2, j).value[k] == m2[k]
    ensures k in Steps(step, m, i, n).expressions && Steps(step, m, i, n).expressions[k] == m[k]
    decreases n - i
  {
    if i < n {
      if step(m, i).Ok? {
        StepsLeave(step, step(m, i).value, i + 1, n, k);
      }
    }
  }

  /** When whether a step succeeds (`ok`) is not changed by the steps before it, the loop runs
      to the end exactly when every step succeeds on the starting state. */
  lemma {:induction false} StepsRunToEnd(step: (map<string, string>, nat) -> Result<map<string, string>, PushError>,
                                        ok: (map<string, string>, nat) -> bool,
                                        m: map<string, string>, i: nat, n: nat)
    requires forall m2, j :: i <= j < n ==> (step(m2, j).Ok? <==> ok(m2, j))
    requires forall m2, j, j2 :: i <= j < j2 < n && step(m2, j).Ok? ==>
               (ok(step(m2, j).value, j2) <==> ok(m2, j2))
    ensures Steps(step, m, i, n).status == None <==> forall j :: i <= j < n ==> ok(m, j)
    decreases n - i
  {
    if i < n {
      if step(m, i).Ok? {
        var m2 := step(m, i).value;
        StepsRunToEnd(step, ok, m2, i + 1, n);
        assert forall j :: i + 1 <= j < n ==> (ok(m2, j) <==> ok(m, j));
      }
    }
  }

  // ---- what a push does ----

  /** A push never adds or removes a scenario. */
  lemma PushKeepsScenarios(m: map<string, string>, leap: seq<string>, weap: seq<string>,
                           i: nat, startyear: int, endyear: int, sep: char,
                           values: (string, int) -> string)
    ensures PushFrom(m, leap, weap, i, startyear, endyear, sep, values).expressions.Keys == m.Keys
  {
    var step := PushStepOf(leap, weap, startyear, endyear, sep, values);
    forall m2, j | i <= j < |leap| && step(m2, j).Ok?
      ensures step(m2, j).value.Keys == m2.Keys
    {
      StepWritesOne(m2, leap, weap, j, startyear, endyear, sep, values);
    }
    StepsKeepKeys(step, m, i, |leap|);
    PushFromSteps(m, leap, weap, i, startyear, endyear, sep, values);
  }

  /** A step that succeeds writes its own WEAP scenario, which was already there, and only
      that one. */
  lemma StepWritesOne(m: map<string, string>, leap: seq<string>, weap: seq<string>, j: nat,
                      startyear: int, endyear: int, sep: char, values: (string, int) -> string)
    requires j < |leap| && PushStep(m, leap, weap, j, startyear, endyear, sep, values).Ok?
    ensures j < |weap| && weap[j] in m
    ensures PushStep(m, leap, weap, j, startyear, endyear, sep, values).value
         == m[weap[j] := Update(m[weap[j]], weap[j], startyear, endyear, sep, ScenarioValues(values, leap[j])).value]
  {
  }

  /** A scenario that no remaining iteration names keeps its expression. */
  lemma PushLeavesOthers(m: map<string, string>, leap: seq<string>, weap: seq<string>,
                         i: nat, startyear: int, endyear: int, sep: char,
                         values: (string, int) -> string, k: string)
    requires k in m
    requires forall j :: i <= j < |leap| && j < |weap| ==> weap[j] != k
    ensures k in PushFrom(m, leap, weap, i, startyear, endyear, sep, values).expressions
    ensures PushFrom(m, leap, weap, i, startyear, endyear, sep, values).expressions[k] == m[k]
  {
    var step := PushStepOf(leap, weap, startyear, endyear, sep, values);
    forall m2, j | i <= j < |leap| && k in m2 && step(m2, j).Ok?
      ensures k in step(m2, j).value && step(m2, j).value[k] == m2[k]
    {
      StepWritesOne(m2, leap, weap, j, startyear, endyear, sep, values);
    }
    StepsLeave(step, m, i, |leap|, k);
    PushFromSteps(m, leap, weap, i, startyear, endyear, sep, values);
  }

  /** No WEAP scenario is named by two remaining iterations. */
  predicate DistinctFrom(weap: seq<string>, i: nat, n: nat) {
    forall j1, j2 :: i <= j1 < j2 < n && j2 < |weap| ==> weap[j1] != weap[j2]
  }

  /** Every remaining iteration finds its WEAP scenario, and its expression passes the
      guard and splits. */
  predicate StepsSucceed(m: map<string, string>, leap: seq<string>, weap: seq<string>, i: nat,
                         startyear: int, endyear: int, sep: char, values: (string, int) -> string)
  {
    forall j :: i <= j < |leap| ==> StepOk(m, leap, weap, j, startyear, endyear, sep, values)
  }

  predicate StepOk(m: map<string, string>, leap: seq<string>, weap: seq<string>, j: nat,
                   startyear: int, endyear: int, sep: char, values: (string, int) -> string)
    requires j < |leap|
  {
    j < |weap| && weap[j] in m
    && Update(m[weap[j]], weap[j], startyear, endyear, sep, ScenarioValues(values, leap[j])).Ok?
  }

  /** Whether an iteration succeeds depends only on its own WEAP scenario's expression. */
  lemma StepOkFrame(m: map<string, string>, m2: map<string, string>, leap: seq<string>, weap: seq<string>,
                    j: nat, startyear: int, endyear: int, sep: char, values: (string, int) -> string)
    requires j < |leap|
    requires j < |weap| ==> (weap[j] in m <==> weap[j] in m2)
    requires j < |weap| && weap[j] in m ==> m[weap[j]] == m2[weap[j]]
    ensures StepOk(m, leap, weap, j, startyear, endyear, sep, values)
        <==> StepOk(m2, leap, weap, j, startyear, endyear, sep, values)
  {
  }

  /** With distinct WEAP scenarios, the push runs to the end exactly when every iteration
      finds its scenario and every expression passes the guard and splits. */
  lemma PushSucceedsIff(m: map<string, string>, leap: seq<string>, weap: seq<string>,
                        i: nat, startyear: int, endyear: int, sep: char,
                        values: (string, int) -> string)
    requires DistinctFrom(weap, i, |leap|)
    ensures PushFrom(m, leap, weap, i, startyear, endyear, sep, values).status == None
        <==> StepsSucceed(m, leap, weap, i, startyear, endyear, sep, values)
  {
    var step := PushStepOf(leap, weap, startyear, endyear, sep, values);
    var ok := (m2: map<string, string>, j: nat) => j < |leap| && StepOk(m2, leap, weap, j, startyear, endyear, sep, values);
    forall m2, j, j2 | i <= j < j2 < |leap| && step(m2, j).Ok?
      ensures ok(step(m2, j).value, j2) <==> ok(m2, j2)
    {
      StepWritesOne(m2, leap, weap, j, startyear, endyear, sep, values);
      StepOkFrame(m2, step(m2, j).value, leap, weap, j2, startyear, endyear, sep, values);
    }
    forall m2, j | i <= j < |leap|
      ensures step(m2, j).Ok? <==> ok(m2, j)
    {
      StepOkIff(m2, leap, weap, j, startyear, endyear, sep, values);
    }
    StepsRunToEnd(step, ok, m, i, |leap|);
    PushFromSteps(m, leap, weap, i, startyear, endyear, sep, values);
    forall j | i <= j < |leap|
      ensures ok(m, j) == StepOk(m, leap, weap, j, startyear, endyear, sep, values)
    {
    }
  }

  /** With distinct WEAP scenarios, a push that runs to the end leaves in each WEAP scenario
      its old expression updated with the LEAP data of the matching LEAP scenario. */
  lemma {:induction false} PushWritesEach(m: map<string, string>, leap: seq<string>, weap: seq<string>,
                                          i: nat, startyear: int, endyear: int, sep: char,
                                          values: (string, int) -> string, j: nat)
    requires DistinctFrom(weap, i, |leap|)
    requires PushFrom(m, leap, weap, i, startyear, endyear, sep, values).status == None
    requires i <= j < |leap|
    ensures StepOk(m, leap, weap, j, startyear, endyear, sep, values)
    ensures weap[j] in PushFrom(m, leap, weap, i, startyear, endyear, sep, values).expressions
    ensures PushFrom(m, leap, weap, i, startyear, endyear, sep, values).expressions[weap[j]]
         == Update(m[weap[j]], weap[j], startyear, endyear, sep, ScenarioValues(values, leap[j])).value
    decreases |leap| - i, 1
  {
    PushSucceedsIff(m, leap, weap, i, startyear, endyear, sep, values);
    assert StepOk(m, leap, weap, j, startyear, endyear, sep, values);
    assert StepOk(m, leap, weap, i, startyear, endyear, sep, values);
    if j == i {
      PushWritesFirst(m, leap, weap, i, startyear, endyear, sep, values);
    } else {
      PushWritesLater(m, leap, weap, i, startyear, endyear, sep, values, j);
    }
  }

  lemma {:induction false} PushWritesLater(m: map<string, string>, leap: seq<string>, weap: seq<string>,
                                           i: nat, startyear: int, endyear: int, sep: char,
                                           values: (string, int) -> string, j: nat)
    requires DistinctFrom(weap, i, |leap|)
    requires PushFrom(m, leap, weap, i, startyear, endyear, sep, values).status == None
    requires i < j < |leap|
    requires StepOk(m, leap, weap, i, startyear, endyear, sep, values)
    requires StepOk(m, leap, weap, j, startyear, endyear, sep, values)
    ensures weap[j] in PushFrom(m, leap, weap, i, startyear, endyear, sep, values).expressions
    ensures PushFrom(m, leap, weap, i, startyear, endyear, sep, values).expressions[weap[j]]
         == Update(m[weap[j]], weap[j], startyear, endyear, sep, ScenarioValues(values, leap[j])).value
    decreases |leap| - i, 0
  {
    var u := Update(m[weap[i]], weap[i], startyear, endyear, sep, ScenarioValues(values, leap[i])).value;
    var m2 := m[weap[i] := u];
    StepWrites(m, leap, weap, i, startyear, endyear, sep, values);
    assert weap[i] != weap[j];
    assert m2[weap[j]] == m[weap[j]];
    PushWritesEach(m2, leap, weap, i + 1, startyear, endyear, sep, values, j);
  }

  lemma PushWritesFirst(m: map<string, string>, leap: seq<string>, weap: seq<string>,
                        i: nat, startyear: int, endyear: int, sep: char,
                        values: (string, int) -> string)
    requires DistinctFrom(weap, i, |leap|)
    requires i < |leap| && StepOk(m, leap, weap, i, startyear, endyear, sep, values)
    ensures weap[i] in PushFrom(m, leap, weap, i, startyear, endyear, sep, values).expressions
    ensures PushFrom(m, leap, weap, i, startyear, endyear, sep, values).expressions[weap[i]]
         == Update(m[weap[i]], weap[i], startyear, endyear, sep, ScenarioValues(values, leap[i])).value
  {
    var u := Update(m[weap[i]], weap[i], startyear, endyear, sep, ScenarioValues(values, leap[i])).value;
    var m2 := m[weap[i] := u];
    StepWrites(m, leap, weap, i, startyear, endyear, sep, values);
    PushLeavesOthers(m2, leap, weap, i + 1, startyear, endyear, sep, values, weap[i]);
  }

  /** Current Accounts is the last scenario written: when both lists have one entry per
      scenario and the WEAP names are distinct, a completed push leaves Current Accounts
      with LEAP's Current Accounts data. */
  lemma CurrentAccountsWritten(m: map<string, string>, leapScenarios: seq<string>, weapScenarios: seq<string>,
                               startyear: int, endyear: int, sep: char, values: (string, int) -> string)
    requires |leapScenarios| == |weapScenarios|
    requires DistinctFrom(weapScenarios + [CurrentAccounts], 0, |leapScenarios| + 1)
    requires Push(m, leapScenarios, weapScenarios, startyear, endyear, sep, values).status == None
    ensures CurrentAccounts in m
    ensures Update(m[CurrentAccounts], CurrentAccounts, startyear, endyear, sep,
                   ScenarioValues(values, CurrentAccounts)).Ok?
    ensures CurrentAccounts in Push(m, leapScenarios, weapScenarios, startyear, endyear, sep, values).expressions
    ensures Push(m, leapScenarios, weapScenarios, startyear, endyear, sep, values).expressions[CurrentAccounts]
         == Update(m[CurrentAccounts], CurrentAccounts, startyear, endyear, sep,
                   ScenarioValues(values, CurrentAccounts)).value
  {
    var leap := leapScenarios + [CurrentAccounts];
    var weap := weapScenarios + [CurrentAccounts];
    var n := |leapScenarios|;
    assert leap[n] == CurrentAccounts && weap[n] == CurrentAccounts;
    var r := PushFrom(m, leap, weap, 0, startyear, endyear, sep, values);
    assert r == Push(m, leapScenarios, weapScenarios, startyear, endyear, sep, values);
    PushWritesEach(m, leap, weap, 0, startyear, endyear, sep, values, n);
    assert StepOk(m, leap, weap, n, startyear, endyear, sep, values);
  }

  /** On a clean Interp expression, one update replaces the window's pairs by LEAP's and
      keeps every other pair, the growth rate and the closing text. */
  lemma UpdateReplacesWindow(pre: seq<Pair>, cur: seq<Pair>, post: seq<Pair>, g: Option<string>,
                             trailer: string, name: string, sep: char, startyear: int, endyear: int,
                             data: int -> string)
    requires startyear <= endyear
    requires GoodSeparator(sep) && trailer != [] && trailer[0] == ')'
    requires CleanPairs(pre, sep) && CleanPairs(cur, sep) && CleanPairs(post, sep) && CleanGrowth(g, sep)
    requires CleanPairs(WindowPairs(startyear, endyear, data), sep)
    requires forall k :: 0 <= k < |pre| ==> pre[k].year < startyear
    requires forall k :: 0 <= k < |cur| ==> startyear <= cur[k].year <= endyear
    requires forall k :: 0 <= k < |post| ==> post[k].year > endyear
    requires pre + cur + post != [] || g.Some?
    ensures Update(Expression(pre + cur + post, g, trailer, sep), name, startyear, endyear, sep, data)
         == Ok(Expression(pre + WindowPairs(startyear, endyear, data) + post, g, trailer, sep))
  {
    var e := Expression(pre + cur + post, g, trailer, sep);
    assert e[..6] == "Interp";
    SpliceReplacesWindow(pre, cur, post, g, trailer, sep, startyear, endyear, data);
  }

  /** One WEAP branch variable: its expression in each WEAP scenario. */
  class WeapVariable {
    var expression: map<string, string>

    constructor (expressions: map<string, string>)
      ensures expression == expressions
    {
      expression := expressions;
    }

    /** `add_leap_data_to_weap_interp`. `values(s, y)` is the text `str()` gives for LEAP's
        value of the source variable in scenario `s` and year `y`, times the multiplier. */
    method AddLeapDataToWeapInterp(weapScenarios: seq<string>, leapScenarios: seq<string>,
                                   startyear: int, endyear: int, listseparator: char,
                                   values: (string, int) -> string)
      returns (status: Option<PushError>)
      modifies this
      ensures Pushed(expression, status)
           == Push(old(expression), leapScenarios, weapScenarios, startyear, endyear, listseparator, values)
    {
      var leapLocal := leapScenarios + [CurrentAccounts];
      var weapLocal := weapScenarios + [CurrentAccounts];
      ghost var target := Push(expression, leapScenarios, weapScenarios, startyear, endyear, listseparator, values);
      var i := 0;
      while i < |leapLocal|
        invariant 0 <= i <= |leapLocal|
        invariant PushFrom(expression, leapLocal, weapLocal, i, startyear, endyear, listseparator, values) == target
      {
        var failed := PushScenario(leapLocal, weapLocal, i, startyear, endyear, listseparator, values);
        if failed.Some? {
          return failed;
        }
        i := i + 1;
      }
      assert Pushed(expression, None) == target by {
        PushDone(expression, leapLocal, weapLocal, startyear, endyear, listseparator, values);
      }
      status := None;
    }

    /** One pass of the scenario loop: scenario `i` of LEAP into scenario `i` of WEAP. */
    method PushScenario(leapLocal: seq<string>, weapLocal: seq<string>, i: nat,
                        startyear: int, endyear: int, listseparator: char,
                        values: (string, int) -> string)
      returns (failed: Option<PushError>)
      requires i < |leapLocal|
      modifies this
      ensures Pushed(expression, failed) == PushOne(old(expression), leapLocal, weapLocal, i, startyear, endyear, listseparator, values)
      ensures failed.Some? ==> PushFrom(old(expression), leapLocal, weapLocal, i, startyear, endyear, listseparator, values)
                               == Pushed(expression, failed)
      ensures failed.None? ==> PushFrom(old(expression), leapLocal, weapLocal, i, startyear, endyear, listseparator, values)
                               == PushFrom(expression, leapLocal, weapLocal, i + 1, startyear, endyear, listseparator, values)
    {
      StepThenLoop(expression, leapLocal, weapLocal, i, startyear, endyear, listseparator, values);
      PushOneIsStep(expression, leapLocal, weapLocal, i, startyear, endyear, listseparator, values);
      if i >= |weapLocal| {
        return Some(MissingWeapScenario(i));
      }
      var name := weapLocal[i];
      if name !in expression {
        return Some(UnknownScenario(name));
      }
      var weapExpression := expression[name];
      if !IsInterp(weapExpression) {
        return Some(NotInterp(name));
      }
      var split := SplitInterpEx(weapExpression, startyear, endyear, listseparator);
      if split.Err? {
        return Some(BadToken(split.error.token));
      }
      var newData := BuildNewData(startyear, endyear, listseparator, ScenarioValues(values, leapLocal[i]));
      expression := expression[name := Splice(split.value.prefix, newData, split.value.suffix, listseparator)];
      failed := None;
    }
  }
}
