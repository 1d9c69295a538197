/** The iteration loop of `main_integration` (wave_integration.py): each pass records the
    target results of LEAP, LEAP-Macro and WEAP into arrays made by `numpy.empty`, and from
    the third pass on compares them with the previous pass's arrays, LEAP first, then
    LEAP-Macro, then WEAP. The loop runs a fixed number of passes. */
module Convergence {
  import opened Results

  /** One slot of a result array: a recorded value, or the `None` that
      `numpy.empty(..., dtype=object)` leaves in a slot nothing was written to. */
  datatype Cell = Num(v: real) | Unset

  datatype ConvError =
    | NegativeSize   // `numpy.empty` with a negative length raises ValueError
    | IndexError     // a write past an array's end, or a read past `last`'s end
    | TypeError      // arithmetic with a `None` slot
    | ZeroDivision   // `0 / 0`: both the previous and the current value are zero
    | UnboundLocal   // `excel` read after an earlier pass deleted it

  function Abs(x: real): real {
    if x < 0.0 then -x else x
  }

  /** One element of a check loop: `Ok(false)` when it sets `results_converged = False` and
      breaks, `Ok(true)` when the loop goes on, `Err` when the test raises. A `None` slot
      differs from 0, so a previous 0 against a current `None` fails without raising. */
  function ElementCheck(last: Cell, cur: Cell, tolerance: real): Result<bool, ConvError> {
    if last == Num(0.0) && cur != Num(0.0) then Ok(false)
    else if last.Unset? || cur.Unset? then Err(TypeError)
    else if last.v == 0.0 then Err(ZeroDivision)
    else Ok(Abs(cur.v / last.v - 1.0) <= tolerance)
  }

  /** An element passes exactly when both values are recorded, the previous one is not 0,
      and the current one lies within `tolerance` times the previous one's size of it. */
  lemma ElementWithinBand(last: Cell, cur: Cell, tolerance: real)
    ensures ElementCheck(last, cur, tolerance) == Ok(true)
        <==> last.Num? && cur.Num? && last.v != 0.0 && Abs(cur.v - last.v) <= tolerance * Abs(last.v)
  {
    if last.Num? && cur.Num? && last.v != 0.0 {
      var q := cur.v / last.v - 1.0;
      assert cur.v - last.v == q * last.v;
      assert Abs(cur.v - last.v) == Abs(q) * Abs(last.v);
      assert Abs(q) <= tolerance <==> Abs(q) * Abs(last.v) <= tolerance * Abs(last.v);
    }
  }

  /** The check loop over `cur` from index `i`: the first element that fails or raises
      decides, and reading `last` past its end raises IndexError. */
  function StageFrom(last: seq<Cell>, cur: seq<Cell>, tolerance: real, i: nat): Result<bool, ConvError>
    decreases |cur| - i
  {
    if i >= |cur| then Ok(true)
    else if i >= |last| then Err(IndexError)
    else
      var e := ElementCheck(last[i], cur[i], tolerance);
      if e == Ok(true) then StageFrom(last, cur, tolerance, i + 1) else e
  }

  function Stage(last: seq<Cell>, cur: seq<Cell>, tolerance: real): Result<bool, ConvError> {
    StageFrom(last, cur, tolerance, 0)
  }

  /** A check loop passes exactly when `last` is long enough and every element passes. */
  lemma {:induction false} StagePasses(last: seq<Cell>, cur: seq<Cell>, tolerance: real, i: nat)
    requires i <= |cur|
    ensures StageFrom(last, cur, tolerance, i) == Ok(true)
        <==> (|cur| <= |last| || i == |cur|)
             && forall k :: i <= k < |cur| ==> k < |last| && ElementCheck(last[k], cur[k], tolerance) == Ok(true)
    decreases |cur| - i
  {
    if i < |cur| && i < |last| {
      StagePasses(last, cur, tolerance, i + 1);
    }
  }

  /** Both values 0 make the element test divide 0 by 0: a check loop whose elements up to
      that point pass raises ZeroDivisionError there. */
  lemma {:induction false} ZeroOverZeroRaises(last: seq<Cell>, cur: seq<Cell>, tolerance: real, i: nat, j: nat)
    requires j <= i < |cur| && i < |last|
    requires last[i] == Num(0.0) && cur[i] == Num(0.0)
    requires forall k :: j <= k < i ==> ElementCheck(last[k], cur[k], tolerance) == Ok(true)
    ensures StageFrom(last, cur, tolerance, j) == Err(ZeroDivision)
    decreases i - j
  {
    if j < i {
      ZeroOverZeroRaises(last, cur, tolerance, i, j + 1);
    }
  }

  /** Against an empty previous array, a check loop over anything raises IndexError. */
  lemma StageOnEmpty(cur: seq<Cell>, tolerance: real)
    ensures Stage([], cur, tolerance) == if cur == [] then Ok(true) else Err(IndexError)
  {
  }

  /** A check loop never passes an array whose last slot was never written. */
  lemma StageNeverPassesUnset(last: seq<Cell>, cur: seq<Cell>, tolerance: real)
    requires cur != [] && cur[|cur| - 1] == Unset
    ensures Stage(last, cur, tolerance) != Ok(true)
  {
    StagePasses(last, cur, tolerance, 0);
    if |cur| <= |last| {
      assert ElementCheck(last[|cur| - 1], cur[|cur| - 1], tolerance) != Ok(true);
    }
  }

  /** One check loop of lines 861-887: `results_converged` stays true only if every element
      passes. */
  method CheckStage(last: seq<Cell>, cur: seq<Cell>, tolerance: real) returns (r: Result<bool, ConvError>)
    ensures r == Stage(last, cur, tolerance)
  {
    var i := 0;
    while i < |cur|
      invariant 0 <= i <= |cur|
      invariant StageFrom(last, cur, tolerance, i) == Stage(last, cur, tolerance)
    {
      if i >= |last| {
        return Err(IndexError);
      }
      if last[i] == Num(0.0) && cur[i] != Num(0.0) {
        return Ok(false);
      }
      if last[i].Unset? || cur[i].Unset? {
        return Err(TypeError);
      }
      if last[i].v == 0.0 {
        return Err(ZeroDivision);
      }
      if Abs(cur[i].v / last[i].v - 1.0) > tolerance {
        return Ok(false);
      }
      i := i + 1;
    }
    return Ok(true);
  }

  /** The nested `for` loops' order: every `x` in turn, and for each the whole of `ys`. */
  function Cross<A, B>(xs: seq<A>, ys: seq<B>): (r: seq<(A, B)>)
    ensures |r| == |xs| * |ys|
  {
    if xs == [] then []
    else
      var rest := Cross(xs[1..], ys);
      assert |xs| * |ys| == |ys| + (|xs| - 1) * |ys|;
      seq(|ys|, j requires 0 <= j < |ys| => (xs[0], ys[j])) + rest
  }

  /** Element `i * |ys| + j` of the nested loops is the `i`-th `x` with the `j`-th `y`. */
  lemma {:induction false} CrossAt<A, B>(xs: seq<A>, ys: seq<B>, i: nat, j: nat)
    requires i < |xs| && j < |ys|
    ensures i * |ys| + j < |Cross(xs, ys)| && Cross(xs, ys)[i * |ys| + j] == (xs[i], ys[j])
  {
    assert (i + 1) * |ys| <= |xs| * |ys| && (i + 1) * |ys| == i * |ys| + |ys|;
    if i > 0 {
      CrossAt(xs[1..], ys, i - 1, j);
      assert i * |ys| == (i - 1) * |ys| + |ys|;
      var head := seq(|ys|, k requires 0 <= k < |ys| => (xs[0], ys[k]));
      assert Cross(xs, ys) == head + Cross(xs[1..], ys);
    }
  }

  /** `range(lo, hi)`. */
  function Range(lo: int, hi: int): (r: seq<int>)
    ensures |r| == if hi > lo then hi - lo else 0
    ensures forall k :: 0 <= k < |r| ==> r[k] == lo + k
  {
    seq(if hi > lo then hi - lo else 0, k requires k >= 0 => lo + k)
  }

  /** What the run compares: `target_leap_results`, `leap_scenarios`, `leap_calc_years`,
      `target_leapmacro_results` and the LEAP-Macro regions (only with `leap_macro`),
      `target_weap_results`, `weap_scenarios`, and WEAP's base and end years. */
  datatype Targets = Targets(leapResults: seq<string>, leapScenarios: seq<string>, leapYears: seq<int>,
                             leapMacro: bool, macroResults: seq<string>, macroRegions: seq<string>,
                             weapResults: seq<string>, weapScenarios: seq<string>, weapBase: int, weapEnd: int)

  type LeapKey = (string, (string, int))
  type MacroKey = (string, (string, (string, int)))

  /** The values LEAP, LEAP-Macro and WEAP report in each pass (`ValueRS`, `ResultValue`). */
  datatype Readings = Readings(leap: (nat, LeapKey) -> real, macro: (nat, MacroKey) -> real,
                               weap: (nat, LeapKey) -> real)

  function LeapKeys(t: Targets): seq<LeapKey> {
    Cross(t.leapResults, Cross(t.leapScenarios, t.leapYears))
  }

  function MacroKeys(t: Targets): seq<MacroKey> {
    Cross(t.macroResults, Cross(t.macroRegions, Cross(t.leapScenarios, t.leapYears)))
  }

  /** WEAP's years run from the base year up to, but not including, the end year. */
  function WeapKeys(t: Targets): seq<LeapKey> {
    Cross(t.weapResults, Cross(t.weapScenarios, Range(t.weapBase, t.weapEnd)))
  }

  function LeapSize(t: Targets): int {
    |t.leapResults| * |t.leapScenarios| * |t.leapYears|
  }

  function MacroSize(t: Targets): int {
    |t.macroResults| * |t.macroRegions| * |t.leapScenarios| * |t.leapYears|
  }

  /** The WEAP array's length as the expression is written: the product is taken with the
      end year alone and the base year subtracted afterwards. */
  function WeapSize(t: Targets): int {
    |t.weapResults| * |t.weapScenarios| * t.weapEnd - t.weapBase + 1
  }

  /** An array of `size` empty slots whose first `|keys|` slots receive the values of
      `keys` in order. When `echo` is `Some(n)`, every write at index `i` is followed by a
      read of index `i` of another array of length `n`. */
  function Recorded<K>(size: int, keys: seq<K>, value: K -> real, echo: Option<nat>): Result<seq<Cell>, ConvError> {
    if size < 0 then Err(NegativeSize)
    else if |keys| > size then Err(IndexError)
    else if echo.Some? && |keys| > echo.value then Err(IndexError)
    else Ok(seq(|keys|, i requires 0 <= i < |keys| => Num(value(keys[i]))) + seq(size - |keys|, _ => Unset))
  }

  /** The array made by `numpy.empty(size, dtype=object)` and filled through
      `current_index`. */
  method Record<K>(size: int, keys: seq<K>, value: K -> real, echo: Option<nat>) returns (r: Result<seq<Cell>, ConvError>)
    ensures r == Recorded(size, keys, value, echo)
  {
    if size < 0 {
      return Err(NegativeSize);
    }
    var a := new Cell[size](_ => Unset);
    var current := 0;
    while current < |keys|
      invariant 0 <= current <= |keys| && current <= a.Length
      invariant echo.Some? ==> current <= echo.value
      invariant forall i :: 0 <= i < current ==> a[i] == Num(value(keys[i]))
      invariant forall i :: current <= i < a.Length ==> a[i] == Unset
    {
      if current >= a.Length {
        return Err(IndexError);
      }
      a[current] := Num(value(keys[current]));
      if echo.Some? && current >= echo.value {
        return Err(IndexError);
      }
      current := current + 1;
    }
    r := Ok(a[..]);
    assert r.value == Recorded(size, keys, value, echo).value;
  }

  /** An array sized for exactly its keys holds every key's value in order and no empty
      slot. */
  lemma RecordedExact<K>(keys: seq<K>, value: K -> real)
    ensures var r := Recorded(|keys|, keys, value, None);
            r.Ok? && |r.value| == |keys| && forall i :: 0 <= i < |keys| ==> r.value[i] == Num(value(keys[i]))
  {
    var r := Recorded(|keys|, keys, value, None);
    assert r.value == seq(|keys|, i requires 0 <= i < |keys| => Num(value(keys[i])));
  }

  /** An array with more slots than keys ends in an empty slot. */
  lemma RecordedTail<K>(size: int, keys: seq<K>, value: K -> real, echo: Option<nat>)
    requires |keys| < size
    requires Recorded(size, keys, value, echo).Ok?
    ensures var a := Recorded(size, keys, value, echo).value;
            |a| == size && a[size - 1] == Unset
  {
  }

  /** The arrays of one pass. */
  datatype PassResults = PassResults(leap: seq<Cell>, macro: seq<Cell>, weap: seq<Cell>)

  /** Lines 806-847 of pass `p`. The LEAP-Macro loop prints the LEAP array at its own
      index, so it raises when it has more elements than the LEAP array. */
  function RecordPass(t: Targets, rd: Readings, p: nat): Result<PassResults, ConvError> {
    var leap := Recorded(LeapSize(t), LeapKeys(t), k => rd.leap(p, k), None);
    if leap.Err? then Err(leap.error)
    else
      var macro := if t.leapMacro then Recorded(MacroSize(t), MacroKeys(t), k => rd.macro(p, k), Some(|leap.value|))
                   else Ok([]);
      if macro.Err? then Err(macro.error)
      else
        var weap := Recorded(WeapSize(t), WeapKeys(t), k => rd.weap(p, k), None);
        if weap.Err? then Err(weap.error)
        else Ok(PassResults(leap.value, macro.value, weap.value))
  }

  /** Three nested loops visit `len(a)*len(b)*len(c)` combinations. */
  lemma CrossCount3<A, B, C>(a: seq<A>, b: seq<B>, c: seq<C>)
    ensures |Cross(a, Cross(b, c))| == |a| * |b| * |c|
  {
    assert |a| * (|b| * |c|) == |a| * |b| * |c|;
  }

  /** The LEAP loops' keys fill the LEAP array exactly. */
  lemma LeapKeysFill(t: Targets)
    ensures |LeapKeys(t)| == LeapSize(t)
  {
    CrossCount3(t.leapResults, t.leapScenarios, t.leapYears);
  }

  /** As written, the WEAP array is longer than its keys by
      `len(target_weap_results) * len(weap_scenarios) * BaseYear - BaseYear + 1`. */
  lemma WeapSizeExcess(t: Targets)
    requires t.weapBase <= t.weapEnd
    ensures WeapSize(t) - |WeapKeys(t)| == |t.weapResults| * |t.weapScenarios| * t.weapBase - t.weapBase + 1
  {
    CrossCount3(t.weapResults, t.weapScenarios, Range(t.weapBase, t.weapEnd));
    var ts := |t.weapResults| * |t.weapScenarios|;
    var years := t.weapEnd - t.weapBase;
    assert ts * (years + t.weapBase) == ts * years + ts * t.weapBase;
  }

  /** The LEAP-Macro loop reads the LEAP array at its own index (line 827), so a pass with
      more LEAP-Macro slots than LEAP slots raises IndexError while recording. */
  lemma MacroEchoRaises(t: Targets, rd: Readings, p: nat)
    requires t.leapMacro && |MacroKeys(t)| > LeapSize(t)
    ensures RecordPass(t, rd, p) == Err(IndexError)
  {
    LeapKeysFill(t);
  }

  /** The staged test of lines 859-887: LEAP first; LEAP-Macro, against its previous array,
      only if LEAP passed; WEAP only if everything before passed. */
  function Check(t: Targets, lastLeap: seq<Cell>, lastMacro: seq<Cell>, lastWeap: seq<Cell>, cur: PassResults,
                 tolerance: real): Result<bool, ConvError> {
    var l := Stage(lastLeap, cur.leap, tolerance);
    if l != Ok(true) then l
    else
      var m := if t.leapMacro then Stage(lastMacro, cur.macro, tolerance) else Ok(true);
      if m != Ok(true) then m
      else Stage(lastWeap, cur.weap, tolerance)
  }

  /** The test passes exactly when each array it looks at passes against its previous one. */
  lemma CheckPasses(t: Targets, lastLeap: seq<Cell>, lastMacro: seq<Cell>, lastWeap: seq<Cell>, cur: PassResults,
                    tolerance: real)
    ensures Check(t, lastLeap, lastMacro, lastWeap, cur, tolerance) == Ok(true)
        <==> Stage(lastLeap, cur.leap, tolerance) == Ok(true)
             && (t.leapMacro ==> Stage(lastMacro, cur.macro, tolerance) == Ok(true))
             && Stage(lastWeap, cur.weap, tolerance) == Ok(true)
  {
  }

  /** With LEAP-Macro on, its previous array never refreshed, and LEAP-Macro targets to
      record, a pass whose LEAP results pass raises IndexError in the LEAP-Macro loop. */
  lemma MacroCheckRaises(t: Targets, lastLeap: seq<Cell>, lastWeap: seq<Cell>, cur: PassResults, tolerance: real)
    requires t.leapMacro && cur.macro != []
    requires Stage(lastLeap, cur.leap, tolerance) == Ok(true)
    ensures Check(t, lastLeap, [], lastWeap, cur, tolerance) == Err(IndexError)
  {
    StageOnEmpty(cur.macro, tolerance);
  }

  /** The loop's variables between passes. */
  datatype RunState = RunState(completed: nat, converged: bool, lastLeap: seq<Cell>, lastWeap: seq<Cell>)

  /** One pass of the loop body: record, test from the third pass on, then keep this pass's
      LEAP and WEAP arrays. `lastMacro` is the LEAP-Macro array set once before the loop. */
  function Pass(t: Targets, rd: Readings, tolerance: real, maxIterations: int, lastMacro: seq<Cell>,
                st: RunState): Result<RunState, ConvError> {
    var cur := RecordPass(t, rd, st.completed);
    if cur.Err? then Err(cur.error)
    else
      var conv := if st.completed > 1 && st.completed < maxIterations
                  then Check(t, st.lastLeap, lastMacro, st.lastWeap, cur.value, tolerance)
                  else Ok(st.converged);
      if conv.Err? then Err(conv.error)
      else Ok(RunState(st.completed + 1, conv.value, cur.value.leap, cur.value.weap))
  }

  /** The state after `n` passes from the values set before the loop; an exception ends
      the run. */
  function RunUpTo(t: Targets, rd: Readings, tolerance: real, maxIterations: int, n: nat): Result<RunState, ConvError> {
    if n == 0 then Ok(RunState(0, false, [], []))
    else
      var r := RunUpTo(t, rd, tolerance, maxIterations, n - 1);
      if r.Err? then r else Pass(t, rd, tolerance, maxIterations, [], r.value)
  }

  /** `while completed_iterations < max_iterations` runs this many passes. */
  function Passes(maxIterations: int): nat {
    if maxIterations > 0 then maxIterations else 0
  }

  /** Once a pass raises, the run's outcome is that error. */
  lemma {:induction false} RunStops(t: Targets, rd: Readings, tolerance: real, maxIterations: int, n: nat, m: nat)
    requires n <= m
    requires RunUpTo(t, rd, tolerance, maxIterations, n).Err?
    ensures RunUpTo(t, rd, tolerance, maxIterations, m) == RunUpTo(t, rd, tolerance, maxIterations, n)
    decreases m - n
  {
    if n < m {
      RunStops(t, rd, tolerance, maxIterations, n, m - 1);
    }
  }

  /** Every pass counts: reaching convergence does not leave the loop early. */
  lemma {:induction false} RunCount(t: Targets, rd: Readings, tolerance: real, maxIterations: int, n: nat)
    ensures RunUpTo(t, rd, tolerance, maxIterations, n).Ok? ==> RunUpTo(t, rd, tolerance, maxIterations, n).value.completed == n
  {
    if n > 0 {
      RunCount(t, rd, tolerance, maxIterations, n - 1);
    }
  }

  /** After the run, `results_converged` is the outcome of the last pass's test, and there
      is no test before the third pass. */
  lemma RunConverged(t: Targets, rd: Readings, tolerance: real, maxIterations: int, n: nat)
    requires 0 < n <= Passes(maxIterations)
    requires RunUpTo(t, rd, tolerance, maxIterations, n).Ok?
    ensures var st := RunUpTo(t, rd, tolerance, maxIterations, n - 1).value;
            var cur := RecordPass(t, rd, n - 1).value;
            RunUpTo(t, rd, tolerance, maxIterations, n).value.converged
            == (n > 2 && Check(t, st.lastLeap, [], st.lastWeap, cur, tolerance) == Ok(true))
  {
    RunCount(t, rd, tolerance, maxIterations, n - 1);
    if n <= 2 {
      EarlyNotConverged(t, rd, tolerance, maxIterations, n);
    }
  }

  lemma {:induction false} EarlyNotConverged(t: Targets, rd: Readings, tolerance: real, maxIterations: int, n: nat)
    requires n <= 2
    requires RunUpTo(t, rd, tolerance, maxIterations, n).Ok?
    ensures !RunUpTo(t, rd, tolerance, maxIterations, n).value.converged
  {
    if n > 0 {
      RunCount(t, rd, tolerance, maxIterations, n - 1);
      EarlyNotConverged(t, rd, tolerance, maxIterations, n - 1);
    }
  }

  /** As the WEAP array's length is written, with at least one WEAP target and scenario and
      a base year that is not negative and not after the end year, the array ends in a slot no value is written to, so
      the WEAP test never passes and the run never reports convergence. The outcome is in fact
      an error: once every earlier WEAP element passes, the empty slots meet in `ElementCheck`
      and `None / None` raises TypeError (wave_integration.py:865, 885). */
  lemma NeverConverges(t: Targets, rd: Readings, tolerance: real, maxIterations: int, n: nat)
    requires |t.weapResults| * |t.weapScenarios| >= 1 && 0 <= t.weapBase <= t.weapEnd
    requires n <= Passes(maxIterations)
    requires RunUpTo(t, rd, tolerance, maxIterations, n).Ok?
    ensures !RunUpTo(t, rd, tolerance, maxIterations, n).value.converged
  {
    if n > 2 {
      RunConverged(t, rd, tolerance, maxIterations, n);
      var st := RunUpTo(t, rd, tolerance, maxIterations, n - 1).value;
      var cur := RecordPass(t, rd, n - 1).value;
      WeapArrayEndsUnset(t, rd, n - 1);
      StageNeverPassesUnset(st.lastWeap, cur.weap, tolerance);
      CheckPasses(t, st.lastLeap, [], st.lastWeap, cur, tolerance);
    } else {
      EarlyNotConverged(t, rd, tolerance, maxIterations, n);
    }
  }

  /** The WEAP array of a recorded pass has more slots than WEAP keys, so its last slot is
      empty. */
  lemma WeapArrayEndsUnset(t: Targets, rd: Readings, p: nat)
    requires |t.weapResults| * |t.weapScenarios| >= 1 && 0 <= t.weapBase <= t.weapEnd
    requires RecordPass(t, rd, p).Ok?
    ensures var w := RecordPass(t, rd, p).value.weap;
            w != [] && w[|w| - 1] == Unset
  {
    WeapSizeExcess(t);
    assert |t.weapResults| * |t.weapScenarios| * t.weapBase >= t.weapBase;
    assert WeapSize(t) - |WeapKeys(t)| >= 1;
    RecordedTail(WeapSize(t), WeapKeys(t), k => rd.weap(p, k), None);
  }

  /** One pass as the loop body is written. `excel` is bound once, before the loop (line 531),
      and lines 703-704 delete it at the end of every pass, so every later pass raises
      UnboundLocalError in the hydropower block (line 681, raised again by the `finally` at
      687, or line 703) before anything is recorded. */
  function PassAsWritten(t: Targets, rd: Readings, tolerance: real, maxIterations: int,
                         st: RunState): Result<RunState, ConvError> {
    if st.completed >= 1 then Err(UnboundLocal) else Pass(t, rd, tolerance, maxIterations, [], st)
  }

  /** The state after `n` passes of the loop as written. */
  function RunAsWrittenUpTo(t: Targets, rd: Readings, tolerance: real, maxIterations: int, n: nat)
    : Result<RunState, ConvError>
  {
    if n == 0 then Ok(RunState(0, false, [], []))
    else
      var r := RunAsWrittenUpTo(t, rd, tolerance, maxIterations, n - 1);
      if r.Err? then r else PassAsWritten(t, rd, tolerance, maxIterations, r.value)
  }

  /** The loop as written agrees with the loop that keeps `excel` for one pass; a run that
      goes on to a second pass ends there in UnboundLocalError, unless the first pass
      already raised. */
  lemma {:induction false} AsWrittenRuns(t: Targets, rd: Readings, tolerance: real, maxIterations: int, n: nat)
    ensures n <= 1 ==> RunAsWrittenUpTo(t, rd, tolerance, maxIterations, n) == RunUpTo(t, rd, tolerance, maxIterations, n)
    ensures n >= 2 ==> RunAsWrittenUpTo(t, rd, tolerance, maxIterations, n)
                       == if RunUpTo(t, rd, tolerance, maxIterations, 1).Err? then RunUpTo(t, rd, tolerance, maxIterations, 1)
                          else Err(UnboundLocal)
  {
    if n >= 2 {
      AsWrittenRuns(t, rd, tolerance, maxIterations, n - 1);
      if n == 2 {
        RunCount(t, rd, tolerance, maxIterations, 1);
      }
    }
  }

  /** As written, no run with `max_iterations >= 2` completes, and none reaches the
      convergence test of lines 851-887, which needs two completed passes. */
  lemma SecondPassRaises(t: Targets, rd: Readings, tolerance: real, maxIterations: int, n: nat)
    requires maxIterations >= 2
    ensures RunAsWrittenUpTo(t, rd, tolerance, maxIterations, Passes(maxIterations)).Err?
    ensures RunUpTo(t, rd, tolerance, maxIterations, 1).Ok? ==>
              RunAsWrittenUpTo(t, rd, tolerance, maxIterations, Passes(maxIterations)) == Err(UnboundLocal)
    ensures RunAsWrittenUpTo(t, rd, tolerance, maxIterations, n).Ok? ==>
              n <= 1 && !RunAsWrittenUpTo(t, rd, tolerance, maxIterations, n).value.converged
  {
    AsWrittenRuns(t, rd, tolerance, maxIterations, Passes(maxIterations));
    AsWrittenRuns(t, rd, tolerance, maxIterations, n);
    if n <= 1 && RunUpTo(t, rd, tolerance, maxIterations, n).Ok? {
      EarlyNotConverged(t, rd, tolerance, maxIterations, n);
    }
  }

  /** The loop's variables that live across passes (lines 322-528 set them). */
  class Coupling {
    var completedIterations: nat
    var resultsConverged: bool
    var lastLeap: seq<Cell>
    var lastWeap: seq<Cell>
    /** `last_iteration_leapmacro_results`, set once before the loop and never reassigned. */
    var lastMacro: seq<Cell>

    constructor()
      ensures completedIterations == 0 && !resultsConverged && lastLeap == [] && lastWeap == [] && lastMacro == []
    {
      completedIterations := 0;
      resultsConverged := false;
      lastLeap := [];
      lastWeap := [];
      lastMacro := [];
    }

    function State(): RunState
      reads this
    {
      RunState(completedIterations, resultsConverged, lastLeap, lastWeap)
    }

    /** Lines 806-847: the three arrays of this pass. */
    method RecordResults(t: Targets, rd: Readings) returns (cur: PassResults, err: Option<ConvError>)
      ensures RecordPass(t, rd, completedIterations) == if err.Some? then Err(err.value) else Ok(cur)
    {
      var p := completedIterations;
      cur := PassResults([], [], []);
      var leap := Record(LeapSize(t), LeapKeys(t), k => rd.leap(p, k), None);
      if leap.Err? {
        return cur, Some(leap.error);
      }
      var macro: Result<seq<Cell>, ConvError> := Ok([]);
      if t.leapMacro {
        macro := Record(MacroSize(t), MacroKeys(t), k => rd.macro(p, k), Some(|leap.value|));
        if macro.Err? {
          return cur, Some(macro.error);
        }
      }
      var weap := Record(WeapSize(t), WeapKeys(t), k => rd.weap(p, k), None);
      if weap.Err? {
        return cur, Some(weap.error);
      }
      cur, err := PassResults(leap.value, macro.value, weap.value), None;
    }

    /** Lines 859-887: `results_converged` is set true, then cleared by the first check loop
        that finds an element outside the tolerance. */
    method CheckConvergence(t: Targets, cur: PassResults, tolerance: real) returns (err: Option<ConvError>)
      modifies this
      ensures Check(t, lastLeap, lastMacro, lastWeap, cur, tolerance)
           == if err.Some? then Err(err.value) else Ok(resultsConverged)
      ensures completedIterations == old(completedIterations) && lastLeap == old(lastLeap)
      ensures lastWeap == old(lastWeap) && lastMacro == old(lastMacro)
    {
      resultsConverged := true;
      var r := CheckStage(lastLeap, cur.leap, tolerance);
      if r.Err? {
        return Some(r.error);
      }
      resultsConverged := r.value;
      if resultsConverged && t.leapMacro {
        r := CheckStage(lastMacro, cur.macro, tolerance);
        if r.Err? {
          return Some(r.error);
        }
        resultsConverged := r.value;
      }
      if resultsConverged {
        r := CheckStage(lastWeap, cur.weap, tolerance);
        if r.Err? {
          return Some(r.error);
        }
        resultsConverged := r.value;
      }
      err := None;
    }

    /** One pass of the loop body (lines 542-903 less the exchanges): record, test from the
        third pass on, and keep this pass's LEAP and WEAP arrays. */
    method Iterate(t: Targets, rd: Readings, tolerance: real, maxIterations: int) returns (err: Option<ConvError>)
      requires RunUpTo(t, rd, tolerance, maxIterations, completedIterations) == Ok(State()) && lastMacro == []
      modifies this
      ensures var r := RunUpTo(t, rd, tolerance, maxIterations, old(completedIterations) + 1);
              if r.Err? then err == Some(r.error) else err.None? && State() == r.value
      ensures err.None? ==> completedIterations == old(completedIterations) + 1
      ensures lastMacro == old(lastMacro)
    {
      var cur, e := RecordResults(t, rd);
      if e.Some? {
        return e;
      }
      if completedIterations > 1 && completedIterations < maxIterations {
        e := CheckConvergence(t, cur, tolerance);
        if e.Some? {
          return e;
        }
      }
      lastLeap := cur.leap;
      lastWeap := cur.weap;
      completedIterations := completedIterations + 1;
      err := None;
    }

    /** `while completed_iterations < max_iterations`: the loop runs its passes to the end
        unless one raises. */
    method Run(t: Targets, rd: Readings, tolerance: real, maxIterations: int) returns (err: Option<ConvError>)
      requires State() == RunState(0, false, [], []) && lastMacro == []
      modifies this
      ensures var r := RunUpTo(t, rd, tolerance, maxIterations, Passes(maxIterations));
              if r.Err? then err == Some(r.error) else err.None? && State() == r.value
    {
      while completedIterations < maxIterations
        invariant completedIterations <= Passes(maxIterations)
        invariant RunUpTo(t, rd, tolerance, maxIterations, completedIterations) == Ok(State())
        invariant lastMacro == []
        decreases maxIterations - completedIterations
      {
        ghost var n := completedIterations;
        err := Iterate(t, rd, tolerance, maxIterations);
        if err.Some? {
          RunStops(t, rd, tolerance, maxIterations, n + 1, Passes(maxIterations));
          return;
        }
      }
      assert completedIterations == Passes(maxIterations);
      err := None;
    }
  }
}
