/** Scenario mapping before the coupled run (wave_integration.py): every scenario calculated
    in the application the run starts from is paired with a scenario of the other
    application, by exact name or through the predefined table of `scenarios.yml`; the other
    application's scenarios are disabled first and some are enabled again. */
module Scenarios {
  import opened Results
  import opened OrderedDicts
  import WeapPush

  /** The application the run starts from; `main_integration` fixes it to LEAP. */
  datatype App = Leap | Weap

  /** A scenario of the starting application, with its `ResultsShown` flag. */
  datatype Scenario = Scenario(name: string, resultsShown: bool)

  datatype MapError =
    | NoneCalculated           // no scenario of the starting application shows results
    | NoneMapped               // none of them found a partner
    | MissingScenario(name: string)  // the table names a scenario the other application lacks

  /** The loop's variables: `scenarios_map` (starting-application names are keys for a LEAP
      run, values for a WEAP run, so LEAP names are always keys), the other application's
      `ResultsShown` flags, `at_least_1_calculated`, and the COM error that ended the loop. */
  datatype MapState = MapState(pairs: Dict<string>, shown: map<string, bool>, calculated: bool,
                               failure: Option<MapError>)

  /** The loop looks only at scenarios other than Current Accounts that show results. */
  predicate Calculated(s: Scenario) {
    s.name != WeapPush.CurrentAccounts && s.resultsShown
  }

  /** `scenarios_map` after the predefined table is consulted for `name`. */
  function TableEntry(app: App, predefined: Dict<string>, pairs: Dict<string>, name: string): Dict<string> {
    match app
    case Leap =>
      (match Get(predefined, name)
       case Some(w) => Put(pairs, name, w)
       case None => pairs)
    case Weap =>
      var k := IndexOfValue(predefined, name);
      if k < 0 then pairs else Put(pairs, predefined[k].0, name)
  }

  /** The scenario of the other application that the enabling block switches on, looked up
      in the current `scenarios_map`. */
  function Target(app: App, pairs: Dict<string>, name: string): Option<string> {
    match app
    case Leap => if name in Keys(pairs) then Get(pairs, name) else None
    case Weap =>
      var k := IndexOfValue(pairs, name);
      if k < 0 then None else Some(pairs[k].0)
  }

  /** One pass of the loop over the starting application's scenarios. The enabling block
      sits in the branch taken when no scenario of the same name exists, so an exact match
      is mapped but never enabled. */
  function MapStep(app: App, predefined: Dict<string>, st: MapState, s: Scenario): MapState {
    if !Calculated(s) then st
    else
      var st1 := st.(calculated := true);
      if s.name in st.shown then st1.(pairs := Put(st.pairs, s.name, s.name))
      else
        var pairs := TableEntry(app, predefined, st.pairs, s.name);
        match Target(app, pairs, s.name)
        case None => st1.(pairs := pairs)
        case Some(t) =>
          if t in st.shown then st1.(pairs := pairs, shown := st.shown[t := true])
          else st1.(pairs := pairs, failure := Some(MissingScenario(t)))
  }

  /** `disable_all_scenario_calcs` on the other application. */
  function Disabled(shown: map<string, bool>): map<string, bool> {
    map t | t in shown :: false
  }

  /** The state after the first `n` scenarios of `run`; a COM error stops the loop. */
  function MapUpTo(app: App, predefined: Dict<string>, run: seq<Scenario>, n: nat, shown0: map<string, bool>): MapState
    requires n <= |run|
  {
    if n == 0 then MapState([], Disabled(shown0), false, None)
    else
      var st := MapUpTo(app, predefined, run, n - 1, shown0);
      if st.failure.Some? then st else MapStep(app, predefined, st, run[n - 1])
  }

  function MapRun(app: App, predefined: Dict<string>, run: seq<Scenario>, shown0: map<string, bool>): MapState {
    MapUpTo(app, predefined, run, |run|, shown0)
  }

  /** The checks after the loop, and `leap_scenarios`, `weap_scenarios` as the map's keys
      and values. */
  function Outcome(st: MapState): Result<(seq<string>, seq<string>), MapError> {
    if st.failure.Some? then Err(st.failure.value)
    else if !st.calculated then Err(NoneCalculated)
    else if |st.pairs| == 0 then Err(NoneMapped)
    else Ok((Keys(st.pairs), Values(st.pairs)))
  }

  /** The other application's scenarios, by name, with their `ResultsShown` flags. */
  class OtherApp {
    var resultsShown: map<string, bool>

    constructor(shown: map<string, bool>)
      ensures resultsShown == shown
    {
      resultsShown := shown;
    }

    /** `disable_all_scenario_calcs(other_app_obj)`. */
    method DisableAllScenarioCalcs()
      modifies this
      ensures resultsShown == Disabled(old(resultsShown))
    {
      resultsShown := map t | t in resultsShown :: false;
    }

    /** `other_app_obj.Scenarios(name).ResultsShown = True`; COM raises for an unknown name. */
    method Enable(name: string) returns (ok: bool)
      modifies this
      ensures ok <==> name in old(resultsShown)
      ensures resultsShown == if ok then old(resultsShown)[name := true] else old(resultsShown)
    {
      if name !in resultsShown {
        return false;
      }
      resultsShown := resultsShown[name := true];
      ok := true;
    }
  }

  /** The scenario-mapping block of `main_integration`, from disabling the other
      application's scenarios to filling `leap_scenarios` and `weap_scenarios`. */
  method MapScenarios(app: App, run: seq<Scenario>, predefined: Dict<string>, other: OtherApp)
    returns (r: Result<(seq<string>, seq<string>), MapError>)
    modifies other
    ensures other.resultsShown == MapRun(app, predefined, run, old(other.resultsShown)).shown
    ensures r == Outcome(MapRun(app, predefined, run, old(other.resultsShown)))
  {
    ghost var shown0 := other.resultsShown;
    other.DisableAllScenarioCalcs();
    var pairs: Dict<string> := [];
    var calculated := false;
    var i := 0;
    while i < |run|
      invariant 0 <= i <= |run|
      invariant MapUpTo(app, predefined, run, i, shown0) == MapState(pairs, other.resultsShown, calculated, None)
    {
      var failed;
      pairs, calculated, failed := MapOne(app, run[i], predefined, other, pairs, calculated);
      if failed.Some? {
        assert MapUpTo(app, predefined, run, i + 1, shown0).failure.Some?;
        MapStops(app, predefined, run, i + 1, shown0);
        return Err(failed.value);
      }
      i := i + 1;
    }
    r := Outcome(MapState(pairs, other.resultsShown, calculated, None));
  }

  /** The body of the loop for one scenario `s`. */
  method MapOne(app: App, s: Scenario, predefined: Dict<string>, other: OtherApp,
                pairs0: Dict<string>, calculated0: bool)
    returns (pairs: Dict<string>, calculated: bool, failed: Option<MapError>)
    modifies other
    ensures MapStep(app, predefined, MapState(pairs0, old(other.resultsShown), calculated0, None), s)
         == MapState(pairs, other.resultsShown, calculated, failed)
  {
    pairs, calculated, failed := pairs0, calculated0, None;
    if s.name != WeapPush.CurrentAccounts && s.resultsShown {
      calculated := true;
      if s.name in other.resultsShown {
        pairs := Put(pairs, s.name, s.name);
      } else {
        var target: Option<string> := None;
        match app {
          case Leap =>
            var w := Get(predefined, s.name);
            if w.Some? {
              pairs := Put(pairs, s.name, w.value);
            }
            if s.name in Keys(pairs) {
              target := Get(pairs, s.name);
            }
          case Weap =>
            var k := IndexOfValue(predefined, s.name);
            if k >= 0 {
              pairs := Put(pairs, predefined[k].0, s.name);
            }
            var j := IndexOfValue(pairs, s.name);
            if j >= 0 {
              target := Some(pairs[j].0);
            }
        }
        assert pairs == TableEntry(app, predefined, pairs0, s.name);
        if target.Some? {
          var ok := other.Enable(target.value);
          if !ok {
            failed := Some(MissingScenario(target.value));
          }
        }
      }
    }
  }

  /** Once the loop has stopped on an error, later scenarios change nothing. */
  lemma {:induction false} MapStops(app: App, predefined: Dict<string>, run: seq<Scenario>, n: nat,
                                    shown0: map<string, bool>)
    requires n <= |run|
    requires MapUpTo(app, predefined, run, n, shown0).failure.Some?
    ensures MapRun(app, predefined, run, shown0) == MapUpTo(app, predefined, run, n, shown0)
    decreases |run| - n
  {
    if n < |run| {
      assert MapUpTo(app, predefined, run, n + 1, shown0) == MapUpTo(app, predefined, run, n, shown0);
      MapStops(app, predefined, run, n + 1, shown0);
    }
  }
}
