/** What the scenario mapping computes, stated per scenario of the starting application:
    which pair it contributes, which scenario of the other application it enables, and when
    the mapping fails. `D` is the set of the other application's scenario names. */
module ScenarioLaws {
  import opened Results
  import opened OrderedDicts
  import opened Scenarios

  /** The pair a calculated scenario named `name` contributes: itself when the other
      application has a scenario of that name, otherwise the predefined table's pair (for
      a WEAP run, the first LEAP name the table maps to it). */
  function Mapped(app: App, predefined: Dict<string>, D: set<string>, name: string): Option<(string, string)> {
    if name in D then Some((name, name))
    else
      match app
      case Leap =>
        (match Get(predefined, name)
         case Some(w) => Some((name, w))
         case None => None)
      case Weap =>
        var k := IndexOfValue(predefined, name);
        if k < 0 then None else Some((predefined[k].0, name))
  }

  /** The other application's side of a pair (pairs are always LEAP name first). */
  function OtherSide(app: App, e: (string, string)): string {
    if app == Leap then e.1 else e.0
  }

  /** The pair a table lookup for this scenario enables, when there is one. */
  predicate TableMapped(app: App, predefined: Dict<string>, D: set<string>, s: Scenario) {
    Calculated(s) && s.name !in D && Mapped(app, predefined, D, s.name).Some?
  }

  /** A pair that the mapping can hold: an exact match, or the table's pair. */
  predicate Consistent(app: App, predefined: Dict<string>, D: set<string>, e: (string, string)) {
    match app
    case Leap => if e.0 in D then e.1 == e.0 else Get(predefined, e.0) == Some(e.1)
    case Weap =>
      if e.1 in D then e.0 == e.1
      else
        var k := IndexOfValue(predefined, e.1);
        k >= 0 && predefined[k].0 == e.0
  }

  predicate AllConsistent(app: App, predefined: Dict<string>, D: set<string>, pairs: Dict<string>) {
    forall i :: 0 <= i < |pairs| ==> Consistent(app, predefined, D, pairs[i])
  }

  /** The values `f` gives for the indices below `n`. */
  function Collect<T>(f: nat -> Option<T>, n: nat): set<T> {
    if n == 0 then {} else Collect(f, n - 1) + (if f(n - 1).Some? then {f(n - 1).value} else {})
  }

  lemma {:induction false} CollectIff<T>(f: nat -> Option<T>, n: nat, x: T)
    ensures x in Collect(f, n) <==> exists j: nat :: j < n && f(j) == Some(x)
  {
    if n > 0 {
      CollectIff(f, n - 1, x);
      if f(n - 1) == Some(x) {
        assert n - 1 < n;
      }
      if x in Collect(f, n - 1) {
        var j: nat :| j < n - 1 && f(j) == Some(x);
        assert j < n;
      }
    }
  }

  /** Whether `p` holds for some index below `n`. */
  function Any(p: nat -> bool, n: nat): bool {
    n > 0 && (Any(p, n - 1) || p(n - 1))
  }

  lemma {:induction false} AnyIff(p: nat -> bool, n: nat)
    ensures Any(p, n) <==> exists j: nat :: j < n && p(j)
  {
    if n > 0 {
      AnyIff(p, n - 1);
      if p(n - 1) {
        assert n - 1 < n;
      }
      if Any(p, n - 1) {
        var j: nat :| j < n - 1 && p(j);
        assert j < n;
      }
    }
  }

  /** The pair scenario `j` of `run` contributes, if any. */
  function PairOf(app: App, predefined: Dict<string>, D: set<string>, run: seq<Scenario>): nat -> Option<(string, string)> {
    (j: nat) => if j < |run| && Calculated(run[j]) then Mapped(app, predefined, D, run[j].name) else None
  }

  /** The scenario of the other application scenario `j` of `run` switches on, if any. */
  function EnabledBy(app: App, predefined: Dict<string>, D: set<string>, run: seq<Scenario>): nat -> Option<string> {
    (j: nat) => if j < |run| && TableMapped(app, predefined, D, run[j])
         then Some(OtherSide(app, Mapped(app, predefined, D, run[j].name).value)) else None
  }

  /** Whether scenario `j` of `run` makes the loop fail. */
  function BreaksAt(app: App, predefined: Dict<string>, D: set<string>, run: seq<Scenario>): nat -> bool {
    (j: nat) => j < |run| && Breaks(app, predefined, D, run[j])
  }

  /** Whether scenario `j` of `run` is calculated. */
  function CalculatedAt(run: seq<Scenario>): nat -> bool {
    (j: nat) => j < |run| && Calculated(run[j])
  }

  /** `e` is the pair of one of the first `n` scenarios. */
  predicate Justified(app: App, predefined: Dict<string>, D: set<string>, run: seq<Scenario>, n: nat,
                      e: (string, string)) {
    exists j :: 0 <= j < n && j < |run| && Calculated(run[j]) && Mapped(app, predefined, D, run[j].name) == Some(e)
  }

  /** Scenario `t` of the other application is enabled by one of the first `n` scenarios. */
  predicate Enables(app: App, predefined: Dict<string>, D: set<string>, run: seq<Scenario>, n: nat, t: string) {
    exists j :: 0 <= j < n && j < |run| && TableMapped(app, predefined, D, run[j])
                && OtherSide(app, Mapped(app, predefined, D, run[j].name).value) == t
  }

  lemma JustifiedIff(app: App, predefined: Dict<string>, D: set<string>, run: seq<Scenario>, n: nat,
                     e: (string, string))
    ensures e in Collect(PairOf(app, predefined, D, run), n) <==> Justified(app, predefined, D, run, n, e)
  {
    var f := PairOf(app, predefined, D, run);
    CollectIff(f, n, e);
    if Justified(app, predefined, D, run, n, e) {
      var j :| 0 <= j < n && j < |run| && Calculated(run[j]) && Mapped(app, predefined, D, run[j].name) == Some(e);
      assert f(j) == Some(e);
    }
  }

  lemma EnablesIff(app: App, predefined: Dict<string>, D: set<string>, run: seq<Scenario>, n: nat, t: string)
    ensures t in Collect(EnabledBy(app, predefined, D, run), n) <==> Enables(app, predefined, D, run, n, t)
  {
    var f := EnabledBy(app, predefined, D, run);
    CollectIff(f, n, t);
    if Enables(app, predefined, D, run, n, t) {
      var j :| 0 <= j < n && j < |run| && TableMapped(app, predefined, D, run[j])
               && OtherSide(app, Mapped(app, predefined, D, run[j].name).value) == t;
      assert f(j) == Some(t);
    }
  }

  /** Scenario `s` has the table name a scenario the other application lacks. */
  predicate Breaks(app: App, predefined: Dict<string>, D: set<string>, s: Scenario) {
    TableMapped(app, predefined, D, s) && OtherSide(app, Mapped(app, predefined, D, s.name).value) !in D
  }

  /** With consistent pairs, the table step adds exactly the scenario's pair, and the
      enabling block finds the other side of that pair. */
  lemma TableStep(app: App, predefined: Dict<string>, D: set<string>, pairs: Dict<string>, name: string)
    requires AllConsistent(app, predefined, D, pairs)
    requires name !in D
    ensures var m := Mapped(app, predefined, D, name);
            TableEntry(app, predefined, pairs, name) == if m.None? then pairs else Put(pairs, m.value.0, m.value.1)
    ensures var m := Mapped(app, predefined, D, name);
            Target(app, TableEntry(app, predefined, pairs, name), name)
            == if m.None? then None else Some(OtherSide(app, m.value))
  {
    var m := Mapped(app, predefined, D, name);
    var pairs2 := TableEntry(app, predefined, pairs, name);
    match app {
      case Leap =>
        if m.Some? {
          PutGet(pairs, name, m.value.1, name);
        } else {
          assert name !in Keys(pairs) by {
            forall i | 0 <= i < |pairs| ensures Keys(pairs)[i] != name {
              assert Consistent(app, predefined, D, pairs[i]);
            }
          }
        }
      case Weap =>
        if m.Some? {
          var p := m.value.0;
          PutGet(pairs, p, name, p);
          assert Values(pairs2)[IndexOfValue(pairs2, name)] == name by {
            var i :| 0 <= i < |pairs2| && pairs2[i] == (p, name);
          }
          var k := IndexOfValue(pairs2, name);
          PutEntry(pairs, p, name, k);
          if pairs2[k] in pairs {
            var i :| 0 <= i < |pairs| && pairs[i] == pairs2[k];
            assert Consistent(app, predefined, D, pairs[i]);
          }
        } else {
          assert name !in Values(pairs) by {
            forall i | 0 <= i < |pairs| ensures Values(pairs)[i] != name {
              assert Consistent(app, predefined, D, pairs[i]);
            }
          }
        }
    }
  }

  /** One step of the loop, told in terms of the scenario's pair: a calculated scenario with
      a pair adds it, and a table pair also enables the other side, or fails when the other
      application lacks it. */
  function Next(app: App, predefined: Dict<string>, D: set<string>, st: MapState, s: Scenario): MapState {
    var m := Mapped(app, predefined, D, s.name);
    if !Calculated(s) then st
    else if m.None? then st.(calculated := true)
    else
      var st1 := st.(pairs := Put(st.pairs, m.value.0, m.value.1), calculated := true);
      if !TableMapped(app, predefined, D, s) then st1
      else
        var t := OtherSide(app, m.value);
        if t in D then st1.(shown := st.shown[t := true]) else st1.(failure := Some(MissingScenario(t)))
  }

  /** While the pairs are consistent, the loop's step is `Next`. */
  lemma StepIsNext(app: App, predefined: Dict<string>, D: set<string>, st: MapState, s: Scenario)
    requires st.failure.None? && st.shown.Keys == D && AllConsistent(app, predefined, D, st.pairs)
    ensures MapStep(app, predefined, st, s) == Next(app, predefined, D, st, s)
  {
    if Calculated(s) && s.name !in D {
      TableStep(app, predefined, D, st.pairs, s.name);
    }
  }

  /** The loop run by `Next`, with `D` the other application's scenarios. */
  function NextUpTo(app: App, predefined: Dict<string>, D: set<string>, run: seq<Scenario>, n: nat,
                    shown0: map<string, bool>): MapState
    requires n <= |run|
  {
    if n == 0 then MapState([], Disabled(shown0), false, None)
    else
      var st := NextUpTo(app, predefined, D, run, n - 1, shown0);
      if st.failure.Some? then st else Next(app, predefined, D, st, run[n - 1])
  }

  /** The mapping loop is the loop run by `Next`: its pairs stay consistent and it never
      adds or removes scenarios of the other application. */
  lemma {:induction false} MapIsNext(app: App, predefined: Dict<string>, run: seq<Scenario>, n: nat,
                                     shown0: map<string, bool>)
    requires n <= |run|
    ensures MapUpTo(app, predefined, run, n, shown0) == NextUpTo(app, predefined, shown0.Keys, run, n, shown0)
  {
    if n > 0 {
      MapIsNext(app, predefined, run, n - 1, shown0);
      var st := NextUpTo(app, predefined, shown0.Keys, run, n - 1, shown0);
      if st.failure.None? {
        NextConsistent(app, predefined, shown0.Keys, run, n - 1, shown0);
        NextDomain(app, predefined, run, n - 1, shown0);
        StepIsNext(app, predefined, shown0.Keys, st, run[n - 1]);
      }
    }
  }

  /** The loop never adds or removes scenarios of the other application. */
  lemma {:induction false} NextDomain(app: App, predefined: Dict<string>, run: seq<Scenario>, n: nat,
                                      shown0: map<string, bool>)
    requires n <= |run|
    ensures NextUpTo(app, predefined, shown0.Keys, run, n, shown0).shown.Keys == shown0.Keys
  {
    if n > 0 {
      NextDomain(app, predefined, run, n - 1, shown0);
    }
  }

  /** Every pair is an exact match or the predefined table's pair. */
  lemma {:induction false} NextConsistent(app: App, predefined: Dict<string>, D: set<string>, run: seq<Scenario>,
                                          n: nat, shown0: map<string, bool>)
    requires n <= |run|
    ensures AllConsistent(app, predefined, D, NextUpTo(app, predefined, D, run, n, shown0).pairs)
  {
    if n > 0 {
      var st := NextUpTo(app, predefined, D, run, n - 1, shown0);
      NextConsistent(app, predefined, D, run, n - 1, shown0);
      var s := run[n - 1];
      var m := Mapped(app, predefined, D, s.name);
      if st.failure.None? && Calculated(s) && m.Some? {
        var pairs := Put(st.pairs, m.value.0, m.value.1);
        forall i | 0 <= i < |pairs| ensures Consistent(app, predefined, D, pairs[i]) {
          PutEntry(st.pairs, m.value.0, m.value.1, i);
          if pairs[i] != m.value {
            var k :| 0 <= k < |st.pairs| && st.pairs[k] == pairs[i];
          }
        }
      }
    }
  }

  /** Sound: every pair in the mapping is the pair of a calculated scenario. */
  lemma {:induction false} NextSound(app: App, predefined: Dict<string>, D: set<string>, run: seq<Scenario>,
                                     n: nat, shown0: map<string, bool>)
    requires n <= |run|
    ensures forall e :: e in NextUpTo(app, predefined, D, run, n, shown0).pairs ==> e in Collect(PairOf(app, predefined, D, run), n)
  {
    if n > 0 {
      var st := NextUpTo(app, predefined, D, run, n - 1, shown0);
      var f := PairOf(app, predefined, D, run);
      NextSound(app, predefined, D, run, n - 1, shown0);
      assert Collect(f, n - 1) <= Collect(f, n);
      var s := run[n - 1];
      var m := Mapped(app, predefined, D, s.name);
      if st.failure.None? && Calculated(s) && m.Some? {
        var pairs := Put(st.pairs, m.value.0, m.value.1);
        assert f(n - 1) == Some(m.value);
        assert m.value in Collect(f, n);
        forall i | 0 <= i < |pairs| ensures pairs[i] in Collect(f, n) {
          PutEntry(st.pairs, m.value.0, m.value.1, i);
          if pairs[i] != m.value {
            var k :| 0 <= k < |st.pairs| && st.pairs[k] == pairs[i];
            assert st.pairs[k] in Collect(f, n - 1);
          }
        }
        assert pairs == NextUpTo(app, predefined, D, run, n, shown0).pairs;
      }
    }
  }

  /** Complete: unless the loop stopped on an error, every calculated scenario that has a
      pair put that pair's LEAP name among the mapping's keys. */
  lemma {:induction false} NextComplete(app: App, predefined: Dict<string>, D: set<string>, run: seq<Scenario>,
                                        n: nat, shown0: map<string, bool>)
    requires n <= |run|
    ensures var st := NextUpTo(app, predefined, D, run, n, shown0);
            st.failure.None? ==>
              forall j :: 0 <= j < n && Calculated(run[j]) && Mapped(app, predefined, D, run[j].name).Some?
                ==> Mapped(app, predefined, D, run[j].name).value.0 in Keys(st.pairs)
  {
    if n > 0 {
      var st := NextUpTo(app, predefined, D, run, n - 1, shown0);
      NextComplete(app, predefined, D, run, n - 1, shown0);
      var s := run[n - 1];
      var m := Mapped(app, predefined, D, s.name);
      if st.failure.None? && Calculated(s) && m.Some? {
        PutGrows(st.pairs, m.value.0, m.value.1);
      }
    }
  }

  /** After disabling every scenario of the other application, exactly those the table
      pairs with a calculated scenario are enabled; an exact match enables nothing. */
  lemma {:induction false} NextEnables(app: App, predefined: Dict<string>, D: set<string>, run: seq<Scenario>,
                                       n: nat, shown0: map<string, bool>)
    requires n <= |run|
    ensures var st := NextUpTo(app, predefined, D, run, n, shown0);
            st.failure.None? ==>
              forall t :: t in st.shown ==> (st.shown[t] <==> t in Collect(EnabledBy(app, predefined, D, run), n))
  {
    if n > 0 {
      NextEnables(app, predefined, D, run, n - 1, shown0);
      var f := EnabledBy(app, predefined, D, run);
      assert Collect(f, n) == Collect(f, n - 1) + (if f(n - 1).Some? then {f(n - 1).value} else {});
    }
  }

  /** The loop stops on an error exactly when a calculated scenario without an exact match
      is paired by the table with a scenario the other application lacks. */
  lemma {:induction false} NextFails(app: App, predefined: Dict<string>, D: set<string>, run: seq<Scenario>,
                                     n: nat, shown0: map<string, bool>)
    requires n <= |run|
    ensures var st := NextUpTo(app, predefined, D, run, n, shown0);
            st.failure.Some? <==> Any(BreaksAt(app, predefined, D, run), n)
    ensures var st := NextUpTo(app, predefined, D, run, n, shown0);
            st.failure.Some? ==> st.failure.value.MissingScenario? && st.failure.value.name !in D
  {
    if n > 0 {
      NextFails(app, predefined, D, run, n - 1, shown0);
    }
  }

  /** Unless the loop stopped on an error, `at_least_1_calculated` says whether some
      scenario other than Current Accounts shows results. */
  lemma {:induction false} NextCalculated(app: App, predefined: Dict<string>, D: set<string>, run: seq<Scenario>,
                                          n: nat, shown0: map<string, bool>)
    requires n <= |run|
    ensures var st := NextUpTo(app, predefined, D, run, n, shown0);
            st.failure.None? ==> (st.calculated <==> Any(CalculatedAt(run), n))
  {
    if n > 0 {
      NextCalculated(app, predefined, D, run, n - 1, shown0);
    }
  }

  /** Unless the mapping stopped on an error, the other application's scenarios that end
      up shown are exactly those the table pairs with a calculated scenario. */
  lemma MapShown(app: App, predefined: Dict<string>, run: seq<Scenario>, shown0: map<string, bool>)
    ensures var st := MapRun(app, predefined, run, shown0);
            st.failure.None? ==>
              st.shown.Keys == shown0.Keys
              && forall t :: t in st.shown ==> (st.shown[t] <==> Enables(app, predefined, shown0.Keys, run, |run|, t))
  {
    var D := shown0.Keys;
    MapIsNext(app, predefined, run, |run|, shown0);
    NextDomain(app, predefined, run, |run|, shown0);
    NextEnables(app, predefined, D, run, |run|, shown0);
    forall t | t in D {
      EnablesIff(app, predefined, D, run, |run|, t);
    }
  }

  /** The three ways the mapping ends in an error, each exactly characterised, and the
      scenario lists it hands on otherwise: every position holds a scenario's pair, and
      every calculated scenario with a pair has its LEAP name among `leap_scenarios`. */
  lemma MapOutcome(app: App, predefined: Dict<string>, run: seq<Scenario>, shown0: map<string, bool>)
    ensures var r := Outcome(MapRun(app, predefined, run, shown0));
            var D := shown0.Keys;
            (r.Err? && r.error.MissingScenario? <==> exists j :: 0 <= j < |run| && Breaks(app, predefined, D, run[j]))
            && (r == Err(NoneCalculated) <==>
                  (forall j :: 0 <= j < |run| ==> !Breaks(app, predefined, D, run[j]))
                  && forall j :: 0 <= j < |run| ==> !Calculated(run[j]))
            && (r == Err(NoneMapped) <==>
                  (forall j :: 0 <= j < |run| ==> !Breaks(app, predefined, D, run[j]))
                  && (exists j :: 0 <= j < |run| && Calculated(run[j]))
                  && forall j :: 0 <= j < |run| && Calculated(run[j]) ==> Mapped(app, predefined, D, run[j].name).None?)
            && (r.Ok? ==> |r.value.0| == |r.value.1| > 0
                          && (forall i :: 0 <= i < |r.value.0| ==>
                                Justified(app, predefined, D, run, |run|, (r.value.0[i], r.value.1[i])))
                          && forall j :: 0 <= j < |run| && Calculated(run[j]) && Mapped(app, predefined, D, run[j].name).Some?
                                ==> Mapped(app, predefined, D, run[j].name).value.0 in r.value.0)
  {
    var st := MapRun(app, predefined, run, shown0);
    var n := |run|;
    var D := shown0.Keys;
    MapIsNext(app, predefined, run, n, shown0);
    NextFails(app, predefined, D, run, n, shown0);
    NextCalculated(app, predefined, D, run, n, shown0);
    NextSound(app, predefined, D, run, n, shown0);
    NextComplete(app, predefined, D, run, n, shown0);
    AnyBreaks(app, predefined, D, run);
    AnyCalculated(run);
    if st.failure.None? && |st.pairs| > 0 {
      JustifiedIff(app, predefined, D, run, n, st.pairs[0]);
      var j :| 0 <= j < n && j < |run| && Calculated(run[j]) && Mapped(app, predefined, D, run[j].name) == Some(st.pairs[0]);
    }
    if st.failure.None? && st.calculated && |st.pairs| > 0 {
      forall i | 0 <= i < |st.pairs| ensures Justified(app, predefined, D, run, n, (Keys(st.pairs)[i], Values(st.pairs)[i])) {
        JustifiedIff(app, predefined, D, run, n, st.pairs[i]);
        assert (Keys(st.pairs)[i], Values(st.pairs)[i]) == st.pairs[i];
      }
    }
  }

  lemma AnyBreaks(app: App, predefined: Dict<string>, D: set<string>, run: seq<Scenario>)
    ensures Any(BreaksAt(app, predefined, D, run), |run|) <==> exists j :: 0 <= j < |run| && Breaks(app, predefined, D, run[j])
  {
    var p := BreaksAt(app, predefined, D, run);
    AnyIff(p, |run|);
    if exists j :: 0 <= j < |run| && Breaks(app, predefined, D, run[j]) {
      var j :| 0 <= j < |run| && Breaks(app, predefined, D, run[j]);
      assert p(j);
    }
  }

  lemma AnyCalculated(run: seq<Scenario>)
    ensures Any(CalculatedAt(run), |run|) <==> exists j :: 0 <= j < |run| && Calculated(run[j])
  {
    var p := CalculatedAt(run);
    AnyIff(p, |run|);
    if exists j :: 0 <= j < |run| && Calculated(run[j]) {
      var j :| 0 <= j < |run| && Calculated(run[j]);
      assert p(j);
    }
  }
}
