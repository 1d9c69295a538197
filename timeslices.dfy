/** Month lookups: `get_month_num` (wave_integration.py) and `get_leap_timeslice_info`
    (utils/leap_weap.py), which maps each LEAP timeslice, named `<month>:<rest>`, to the
    number of its month. */
module Timeslices {
  import opened Results
  import opened PyText
  import opened OrderedDicts

  const MonthsInYear: seq<string> := ["January", "February", "March", "April", "May", "June", "July",
                                      "August", "September", "October", "November", "December"]

  /** `xs.index(x)`: the first position of `x`, or -1 where Python raises ValueError. */
  function IndexOf(xs: seq<string>, x: string): (k: int)
    ensures -1 <= k < |xs|
    ensures k == -1 <==> x !in xs
    ensures k >= 0 ==> xs[k] == x && x !in xs[..k]
  {
    if xs == [] then -1
    else if xs[0] == x then 0
    else
      var k := IndexOf(xs[1..], x);
      assert xs == [xs[0]] + xs[1..];
      if k < 0 then -1
      else
        assert xs[..k + 1] == [xs[0]] + xs[1..][..k];
        k + 1
  }

  /** `get_month_num`: the month's number, or `None` where the function fails (after the
      error dialog, `month_num` is unbound and the `return` raises). */
  function GetMonthNum(monthName: string): (r: Option<int>)
    ensures r.Some? ==> 1 <= r.value <= 12
  {
    MonthNumFrom(monthName, 0)
  }

  /** `months_in_year.index(month_name) + 1`, searching from position `i`. */
  function MonthNumFrom(monthName: string, i: nat): (r: Option<int>)
    requires i <= |MonthsInYear|
    ensures r.Some? ==> i + 1 <= r.value <= 12
    decreases |MonthsInYear| - i, monthName
  {
    if i == |MonthsInYear| then None
    else if MonthsInYear[i] == monthName then Some(i + 1)
    else MonthNumFrom(monthName, i + 1)
  }

  /** Only a month's name has a number, and the number is the month's place in the year. */
  lemma MonthNames(monthName: string)
    ensures GetMonthNum(monthName).Some? <==> monthName in MonthsInYear
    ensures GetMonthNum(monthName).Some? ==> MonthsInYear[GetMonthNum(monthName).value - 1] == monthName
  {
    MonthNamesFrom(monthName, 0);
  }

  lemma {:induction false} MonthNamesFrom(monthName: string, i: nat)
    requires i <= |MonthsInYear|
    ensures MonthNumFrom(monthName, i).Some? <==> exists j :: i <= j < |MonthsInYear| && MonthsInYear[j] == monthName
    ensures MonthNumFrom(monthName, i).Some? ==> MonthsInYear[MonthNumFrom(monthName, i).value - 1] == monthName
    decreases |MonthsInYear| - i
  {
    if i < |MonthsInYear| {
      MonthNamesFrom(monthName, i + 1);
      if MonthsInYear[i] != monthName {
        assert MonthNumFrom(monthName, i) == MonthNumFrom(monthName, i + 1);
      }
    }
  }

  /** January to December are months 1 to 12, and each number names one month. */
  lemma MonthNumbers(k: int)
    requires 1 <= k <= 12
    ensures GetMonthNum(MonthsInYear[k - 1]) == Some(k)
  {
    var name := MonthsInYear[k - 1];
    MonthNames(name);
    var r := GetMonthNum(name).value;
    if r < k {
      MonthsDistinct(r - 1, k - 1);
    } else if k < r {
      MonthsDistinct(k - 1, r - 1);
    }
  }

  lemma MonthsDistinct(i: int, j: int)
    requires 0 <= i < j < 12
    ensures MonthsInYear[i] != MonthsInYear[j]
  {
    var a, b := MonthsInYear[i], MonthsInYear[j];
    if |a| == |b| {
      assert a[0] != b[0] || a[2] != b[2];
    }
  }

  /** `dict(zip(months, [1, 2, ...]))`: a month listed twice keeps its last position. */
  function MonthDict(months: seq<string>): Dict<int>
    decreases |months|
  {
    if months == [] then []
    else Put(MonthDict(months[..|months| - 1]), months[|months| - 1], |months|)
  }

  lemma {:induction false} MonthDictGet(months: seq<string>, name: string)
    ensures Get(MonthDict(months), name).Some? <==> name in months
    ensures var r := Get(MonthDict(months), name);
            r.Some? ==> 1 <= r.value <= |months| && months[r.value - 1] == name && name !in months[r.value..]
    decreases |months|
  {
    if months != [] {
      var init := months[..|months| - 1];
      var last := months[|months| - 1];
      MonthDictLast(months, name);
      if name == last {
        assert months[|months|..] == [];
      } else {
        MonthDictGet(init, name);
        var r := Get(MonthDict(init), name);
        assert name in months <==> name in init by {
          assert months == init + [last];
        }
        if r.Some? {
          MonthDictEarlier(months, name, r.value);
        }
      }
    }
  }

  /** Below the last month, `months` reads as the months before the last. */
  lemma MonthDictEarlier(months: seq<string>, name: string, k: int)
    requires 1 <= k < |months| && name != months[|months| - 1]
    ensures months[k - 1] == months[..|months| - 1][k - 1]
    ensures name in months[k..] <==> name in months[..|months| - 1][k..]
  {
    assert months[k..] == months[..|months| - 1][k..] + [months[|months| - 1]];
  }

  /** The last month listed wins; any other name reads as in the months before it. */
  lemma MonthDictLast(months: seq<string>, name: string)
    requires months != []
    ensures name == months[|months| - 1] ==> Get(MonthDict(months), name) == Some(|months|)
    ensures name != months[|months| - 1] ==>
              Get(MonthDict(months), name) == Get(MonthDict(months[..|months| - 1]), name)
  {
    PutGet(MonthDict(months[..|months| - 1]), months[|months| - 1], |months|, name);
  }

  datatype TimesliceError =
    | NoColon(timeslice: string)      // `str.index(":")` raised ValueError
    | UnknownMonth(month: string)     // KeyError, whose handler then raises NameError on `_`

  /** The text before the first `:` of a timeslice name. */
  function MonthPart(name: string): Option<string> {
    var k := Find(name, ':');
    if k < 0 then None else Some(name[..k])
  }

  /** The month number of one timeslice, or why it has none. */
  function TimesliceMonth(name: string, monthDict: Dict<int>): Result<int, TimesliceError> {
    match MonthPart(name)
    case None => Err(NoColon(name))
    case Some(m) =>
      match Get(monthDict, m)
      case None => Err(UnknownMonth(m))
      case Some(k) => Ok(k)
  }

  /** The timeslice loop over `ts`, adding to `info`; the first failure aborts. */
  function TimesliceFrom(info: Dict<int>, ts: seq<string>, monthDict: Dict<int>): Result<Dict<int>, TimesliceError>
    decreases |ts|
  {
    if ts == [] then Ok(info)
    else
      match TimesliceMonth(ts[0], monthDict)
      case Err(e) => Err(e)
      case Ok(k) => TimesliceFrom(Put(info, ts[0], k), ts[1..], monthDict)
  }

  function TimesliceInfo(timeslices: seq<string>, months: seq<string>): Result<Dict<int>, TimesliceError> {
    TimesliceFrom([], timeslices, MonthDict(months))
  }

  /** `get_leap_timeslice_info(leap, months)` with LEAP's timeslice names in order. */
  method GetLeapTimesliceInfo(timeslices: seq<string>, months: seq<string>)
    returns (r: Result<Dict<int>, TimesliceError>)
    ensures r == TimesliceInfo(timeslices, months)
  {
    var monthDict := MonthDict(months);
    var info: Dict<int> := [];
    var i := 0;
    while i < |timeslices|
      invariant 0 <= i <= |timeslices|
      invariant TimesliceInfo(timeslices, months) == TimesliceFrom(info, timeslices[i..], monthDict)
    {
      var name := timeslices[i];
      TimesliceFromStep(info, timeslices[i..], monthDict);
      assert timeslices[i..][0] == name && timeslices[i..][1..] == timeslices[i + 1..];
      var colon := Find(name, ':');
      if colon < 0 {
        assert TimesliceMonth(name, monthDict) == Err(NoColon(name));
        return Err(NoColon(name));
      }
      var monthName := name[..colon];
      assert MonthPart(name) == Some(monthName);
      var month := Get(monthDict, monthName);
      if month.None? {
        assert TimesliceMonth(name, monthDict) == Err(UnknownMonth(monthName));
        return Err(UnknownMonth(monthName));
      }
      assert TimesliceMonth(name, monthDict) == Ok(month.value);
      info := Put(info, name, month.value);
      i := i + 1;
    }
    assert timeslices[i..] == [];
    r := Ok(info);
  }

  lemma TimesliceFromStep(info: Dict<int>, ts: seq<string>, monthDict: Dict<int>)
    requires ts != []
    ensures TimesliceMonth(ts[0], monthDict).Err? ==>
              TimesliceFrom(info, ts, monthDict) == Err(TimesliceMonth(ts[0], monthDict).error)
    ensures TimesliceMonth(ts[0], monthDict).Ok? ==>
              TimesliceFrom(info, ts, monthDict)
              == TimesliceFrom(Put(info, ts[0], TimesliceMonth(ts[0], monthDict).value), ts[1..], monthDict)
  {
  }

  /** A timeslice entry as the map should hold it: the timeslice is one of LEAP's, and the
      number is the 1-based position in `months` of the text before its first `:` (the
      last position, when the month is listed twice). */
  predicate GoodEntry(e: (string, int), timeslices: seq<string>, months: seq<string>) {
    e.0 in timeslices && MonthPart(e.0).Some?
    && 1 <= e.1 <= |months| && months[e.1 - 1] == MonthPart(e.0).value
    && MonthPart(e.0).value !in months[e.1..]
  }

  /** The map holds one entry per distinct timeslice, each with its month's number. */
  lemma {:induction false} TimesliceFromSound(info: Dict<int>, ts: seq<string>, all: seq<string>, months: seq<string>)
    requires TimesliceFrom(info, ts, MonthDict(months)).Ok?
    requires DistinctKeys(info)
    requires forall i :: 0 <= i < |info| ==> GoodEntry(info[i], all, months)
    requires forall t :: t in ts ==> t in all
    ensures var out := TimesliceFrom(info, ts, MonthDict(months)).value;
            DistinctKeys(out)
            && (forall i :: 0 <= i < |out| ==> GoodEntry(out[i], all, months))
            && (forall t :: t in ts ==> t in Keys(out))
            && (forall k :: k in Keys(info) ==> k in Keys(out))
    decreases |ts|
  {
    if ts != [] {
      var md := MonthDict(months);
      var k := TimesliceMonth(ts[0], md).value;
      var m := MonthPart(ts[0]).value;
      MonthDictGet(months, m);
      var info2 := Put(info, ts[0], k);
      PutKeepsDistinct(info, ts[0], k);
      PutKeys(info, ts[0], k);
      assert GoodEntry((ts[0], k), all, months);
      forall i | 0 <= i < |info2| ensures GoodEntry(info2[i], all, months) {
        PutEntry(info, ts[0], k, i);
      }
      forall t | t in ts[1..] ensures t in all {
        assert t in ts;
      }
      TimesliceFromSound(info2, ts[1..], all, months);
      forall t | t in Keys(info) ensures t in Keys(info2) {
        var j :| 0 <= j < |info| && Keys(info)[j] == t;
        assert Keys(info2)[j] == t;
      }
      assert ts[0] in Keys(info2) by { PutGet(info, ts[0], k, ts[0]); }
    }
  }

  /** The timeslice map fails exactly when some timeslice has no `:` or names a month
      `months` does not list; otherwise it holds every timeslice once, each with the
      position of its month. */
  lemma TimesliceInfoCorrect(timeslices: seq<string>, months: seq<string>)
    ensures TimesliceInfo(timeslices, months).Ok?
        <==> forall t :: t in timeslices ==> MonthPart(t).Some? && MonthPart(t).value in months
    ensures TimesliceInfo(timeslices, months).Ok? ==>
              var out := TimesliceInfo(timeslices, months).value;
              DistinctKeys(out)
              && (forall i :: 0 <= i < |out| ==> GoodEntry(out[i], timeslices, months))
              && (forall t :: t in timeslices ==> t in Keys(out))
  {
    TimesliceFromOk([], timeslices, months);
    if TimesliceInfo(timeslices, months).Ok? {
      TimesliceFromSound([], timeslices, timeslices, months);
    }
  }

  lemma {:induction false} TimesliceFromOk(info: Dict<int>, ts: seq<string>, months: seq<string>)
    ensures TimesliceFrom(info, ts, MonthDict(months)).Ok?
        <==> forall t :: t in ts ==> MonthPart(t).Some? && MonthPart(t).value in months
    decreases |ts|
  {
    if ts != [] {
      var md := MonthDict(months);
      if MonthPart(ts[0]).Some? {
        MonthDictGet(months, MonthPart(ts[0]).value);
      }
      match TimesliceMonth(ts[0], md) {
        case Err(_) =>
        case Ok(k) =>
          TimesliceFromOk(Put(info, ts[0], k), ts[1..], months);
          assert forall t :: t in ts <==> t == ts[0] || t in ts[1..];
      }
    }
  }

  /** With distinct timeslice names, the map's keys are the timeslices in LEAP's order. */
  lemma TimesliceOrder(timeslices: seq<string>, months: seq<string>)
    requires forall i, j :: 0 <= i < j < |timeslices| ==> timeslices[i] != timeslices[j]
    requires TimesliceInfo(timeslices, months).Ok?
    ensures Keys(TimesliceInfo(timeslices, months).value) == timeslices
  {
    TimesliceKeys([], timeslices, MonthDict(months));
  }

  lemma {:induction false} TimesliceKeys(info: Dict<int>, ts: seq<string>, monthDict: Dict<int>)
    requires forall i, j :: 0 <= i < j < |ts| ==> ts[i] != ts[j]
    requires forall t :: t in ts ==> t !in Keys(info)
    requires TimesliceFrom(info, ts, monthDict).Ok?
    ensures Keys(TimesliceFrom(info, ts, monthDict).value) == Keys(info) + ts
    decreases |ts|
  {
    if ts == [] {
      assert Keys(info) + ts == Keys(info);
    } else {
      var k := TimesliceMonth(ts[0], monthDict).value;
      TimesliceFromStep(info, ts, monthDict);
      NewKey(info, ts, k);
      TimesliceKeys(Put(info, ts[0], k), ts[1..], monthDict);
      assert Keys(info) + [ts[0]] + ts[1..] == Keys(info) + ts;
    }
  }

  /** The first of distinct new timeslices is appended, and the rest stay new. */
  lemma NewKey(info: Dict<int>, ts: seq<string>, k: int)
    requires ts != []
    requires forall i, j :: 0 <= i < j < |ts| ==> ts[i] != ts[j]
    requires forall t :: t in ts ==> t !in Keys(info)
    ensures Keys(Put(info, ts[0], k)) == Keys(info) + [ts[0]]
    ensures forall i, j :: 0 <= i < j < |ts[1..]| ==> ts[1..][i] != ts[1..][j]
    ensures forall t :: t in ts[1..] ==> t !in Keys(Put(info, ts[0], k))
  {
    PutKeys(info, ts[0], k);
    assert ts[0] in ts;
    var keys := Keys(Put(info, ts[0], k));
    assert keys == Keys(info) + [ts[0]];
    forall t | t in ts[1..] ensures t !in keys {
      var j :| 0 <= j < |ts[1..]| && ts[1..][j] == t;
      assert ts[j + 1] == t && ts[0] != t;
      assert t in ts;
    }
    assert forall i :: 0 <= i < |ts[1..]| ==> ts[1..][i] == ts[i + 1];
  }
}
