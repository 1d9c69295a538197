# LEAP–WEAP coupling layer in Dafny

This project models the text and bookkeeping code of the WAVE integration script, which couples the
energy model LEAP with the water model WEAP (and, optionally, LEAP-Macro). The
simulators themselves are reached through COM and stay outside the model; what they report
(years, expressions, result values, scenario lists) enters as parameters and oracle functions.

What is modelled:

- **Interp splitter and splicer** (`split_interp_ex`, `add_leap_data_to_weap_interp`). The splitter
  breaks a WEAP `Interp(y1,v1,...[,growth])<rest>` expression around the LEAP window into a prefix
  and a suffix, and the splicer puts new window pairs between them. Both are modelled as the code
  does them: lower-casing, removal of every `interp(`, `strip()`, `int()`, the `find` of -1 when there is no `)`,
  and the separator rules. The same code stands three times in the repository
  (utils/leap_weap.py, leap_weap_sub.py, wave_integration.py), and modules `InterpSplit`,
  `InterpLaws`, `InterpRoundTrip` and `WeapPush` serve all three. Each WEAP variable is a class
  holding one expression per scenario.
- **Run settings** (`Settings`): `get_leap_calc_years`, the list-separator check and the unit
  multiplier table.
- **Month lookups** (`Timeslices`): `get_month_num` and `get_leap_timeslice_info`. Python's
  insertion-ordered dictionaries are modelled in `OrderedDicts`.
- **Scenario mapping** (`Scenarios`, `ScenarioLaws`): the loop that pairs each scenario the run starts from with
  a scenario of the other application, disables and re-enables the other application's scenarios,
  and fails in three ways.
- **Hydropower availability channel** (`Hydro`, `HydroLaws`, `HydroReferences`): the CSV rows
  written per WEAP hydropower branch and LEAP scenario, and the `ReadFromExcel` references given to
  the LEAP plants.
- **Water-requirement channels** (`Channels`): the `Interp(...)` expressions rebuilt from WEAP
  supply requirements and written to LEAP.
- **Iteration and convergence loop** (`Convergence`): the result arrays recorded each pass, the
  staged relative-change test, and the fixed number of passes, in a class holding the loop's
  variables.

Behaviour kept as the code has it, each stated by a lemma:

- **Misplaced re-enable.** The scenario mapper re-enables only scenarios found through the
  predefined table, because the enabling block sits in the `else` branch. An exact name match is
  mapped but stays disabled (`ScenarioLaws.MapShown`).
- **Oversized WEAP array.** The WEAP result array's length is written
  `len(a)*len(b)*EndYear - BaseYear + 1`, so the array keeps slots that are never filled. Its
  loop over years also stops before `EndYear`. With at least one WEAP target and scenario, and
  `0 <= BaseYear <= EndYear`, the run therefore never reports convergence
  (`Convergence.NeverConverges`).
- **LEAP-Macro previous array.** `last_iteration_leapmacro_results` is never refreshed. A
  LEAP-Macro check against it raises IndexError (`Convergence.MacroCheckRaises`).
- **Wrong array read.** The LEAP-Macro recording loop reads the LEAP array at its own index
  (wave_integration.py:827). It therefore raises when it has more elements than the LEAP array
  (`Convergence.MacroEchoRaises`).
- **Zero over zero.** Both values 0 makes the element test divide 0 by 0 and raise
  (`Convergence.ZeroOverZeroRaises`).
- **Ints and floats.** The availability cap assigns the `int` 100, which prints as `100`
  where a rounded value prints as `100.0`. A region without branches keeps the `int` total 0,
  which prints as `0` (`Hydro.MonthValue`, `Channels.Total`).
- **Duplicate months.** A month listed twice in `months` keeps its last position
  (`Timeslices.MonthDictGet`).
- **Capacity year.** The capacity year is `y` raised to LEAP's base year and then lowered to its
  end year (`Hydro.CapacityYear`).

## Model

| member | source | states |
|---|---|---|
| PyText.Lower | utils/leap_weap.py:17 | `lower()` keeps the length and lower-cases each ASCII letter in place |
| PyText.RemoveInterpOpen | utils/leap_weap.py:17 | `replace("interp(", "")` never lengthens the text |
| PyText.RemoveInterpOpenSkips | utils/leap_weap.py:17 | text without `(` in front of text starting with `)` passes through the removal untouched |
| PyText.Find | utils/leap_weap.py:16-18 | `find` gives -1 exactly when the character is absent, else the index of its first occurrence |
| PyText.SplitOn | utils/leap_weap.py:19 | `split` gives at least one part, no part holds the separator, and joining the parts gives the text back |
| PyText.SplitOnJoin | utils/leap_weap.py:19 | splitting a join of separator-free parts gives the parts back |
| PyText.Strip | utils/leap_weap.py:23-28 | `strip()` leaves no whitespace at either end and returns whitespace-free text unchanged |
| PyText.StripSlice | utils/leap_weap.py:23-28 | what `strip()` returns is a contiguous slice of its input |
| PyText.StripKeepsChars | utils/leap_weap.py:23-28 | `strip()` only removes characters |
| PyText.DigitsValueAll | utils/leap_weap.py:25 | a digit run has a value exactly when every character is an ASCII digit |
| PyText.NatToStr | utils/leap_weap.py:73-74 | `str(n)` of a natural number is a non-empty digit run that reads back as `n` |
| PyText.IntToStr | utils/leap_weap.py:73-74 | `str(y)` is non-empty, has no whitespace, and `int()` reads it back as `y` |
| PyText.IntToStrChars | utils/leap_weap.py:73-74 | `str(y)` holds only digits and a leading minus sign |
| PyText.Add | wave_integration.py:723 | `val + x` has the sum's value and is an `int` exactly when both operands are |
| PyText.Str | wave_integration.py:724 | `str()` of an `int` is a digit text `int()` reads back; a `float` is printed by the supplied rendering |
| InterpSplit.SplitSpec | utils/leap_weap.py:4-39 | a split prefix starts with `Interp`; a split suffix ends with the text from the first `)` (the whole input when there is none) and is non-empty for non-empty input |
| InterpSplit.SplitInterpEx | utils/leap_weap.py:13-39 | the stepping loop with its growth-rate `break`, the ValueError on a non-integer year, and the trim of one trailing separator per part return exactly the split specification; the copies at leap_weap_sub.py:4-31 and wave_integration.py:196-223 are the same procedure |
| InterpSplit.TrimSeparators | utils/leap_weap.py:29-38 | one trailing separator is trimmed from each part and the termination is appended to the second in all three branches |
| InterpSplit.EarlierMembers | utils/leap_weap.py:25-26 | a pair lands in the prefix exactly when it is an input pair whose year is before the start year |
| InterpSplit.LaterMembers | utils/leap_weap.py:27-28 | a pair lands in the suffix exactly when it is an input pair whose year is after the end year |
| InterpSplit.EarlierAppend | leap_weap_sub.py:17-18 | selecting the pre-window pairs of a concatenation selects from each part in turn, so input order is kept |
| InterpSplit.LaterAppend | leap_weap_sub.py:19-20 | selecting the post-window pairs keeps input order in the same way |
| InterpSplit.RenderAppend | utils/leap_weap.py:26-28 | rendering a concatenation of pairs is the concatenation of the renderings |
| InterpSplit.WindowPairs | utils/leap_weap.py:73 | the window holds one pair per year from the start year to the end year, ascending, and none when the start is after the end |
| InterpSplit.BuildNewData | utils/leap_weap.py:72-74 | the `new_data` loop (here and at leap_weap_sub.py:55-57) yields `year sep value sep` for each window year in ascending order |
| InterpSplit.WindowStep | utils/leap_weap.py:73-74 | one more year appends exactly one `year sep value sep` entry |
| InterpSplit.SplitSpecFails | utils/leap_weap.py:25 | when the token walk raises, the splitter raises the same error |
| InterpSplit.SplitSpecSucceeds | utils/leap_weap.py:13-39 | when the token walk succeeds, the parts are the trimmed pre-window rendering and the trimmed post-window rendering plus growth rate plus termination |
| InterpLaws.ParsePairsShape | utils/leap_weap.py:20-28 | the walk reads `n/2` pairs from tokens `2j` and `2j+1` (stripped, the year by `int()`); a growth rate exists exactly for an odd token count and is the stripped last token, as in the walk at leap_weap_sub.py:12-20 |
| InterpLaws.WalkCount | utils/leap_weap.py:20-24 | the walk yields one pair per two tokens and keeps an odd last token as growth rate |
| InterpLaws.WalkAt | utils/leap_weap.py:25-28 | the `j`-th pair comes from the tokens at `2j` and `2j+1` |
| InterpLaws.ParsePairsFails | utils/leap_weap.py:25 | the walk fails exactly when some token in a year position is not an integer |
| InterpLaws.WalkFails | utils/leap_weap.py:20-28 | the walk over any strip and parse fails exactly at a non-integer year slot |
| InterpLaws.SplitFailsIff | utils/leap_weap.py:16-28 | `split_interp_ex` raises exactly when a year-position token of the expression is not an integer |
| InterpRoundTrip.PairTokens | utils/leap_weap.py:19-20 | a list of pairs gives two tokens per pair |
| InterpRoundTrip.JoinPairTokens | utils/leap_weap.py:26-28 | joining pair tokens before a tail gives the rendered pairs followed by the joined tail |
| InterpRoundTrip.TokensClean | utils/leap_weap.py:19 | every token of clean pairs and growth rate is clean |
| InterpRoundTrip.LowerExpression | utils/leap_weap.py:17 | lower-casing a clean expression only lower-cases `Interp` and the trailer |
| InterpRoundTrip.InnerTextOf | utils/leap_weap.py:17-18 | the splitter's token text of a clean expression is exactly its inner pairs-and-growth text |
| InterpRoundTrip.TerminationOf | utils/leap_weap.py:16 | the termination of a clean expression is its trailer |
| InterpRoundTrip.ParseClean | utils/leap_weap.py:20-28 | the walk reads the tokens of clean pairs and growth rate back as exactly those pairs and growth rate |
| InterpRoundTrip.WindowSelection | utils/leap_weap.py:25-28 | for pairs laid out before, inside and after the window, the prefix keeps exactly the first group and the suffix exactly the last |
| InterpRoundTrip.SpliceReplacesWindow | utils/leap_weap.py:4-39 | splitting a clean expression yields the pre-window prefix and the post-window-plus-growth-plus-trailer suffix, and splicing new window data (by the rules here and at leap_weap_sub.py:58-66) gives the expression with only the window's pairs replaced |
| InterpRoundTrip.RoundTrip | utils/leap_weap.py:72-83 | splicing back the window an expression already holds reproduces the expression exactly |
| InterpRoundTrip.PushIdempotent | utils/leap_weap.py:71-84 | a second push of the same data splits into the same parts and leaves the expression as the first push made it |
| WeapPush.Update | utils/leap_weap.py:66-83 | an expression update fails exactly when the case-sensitive `Interp` guard fails or the split raises; a successful update passes the guard again |
| WeapPush.SpliceKeepsInterp | utils/leap_weap.py:75-83 | splicing onto an `Interp` prefix keeps the first six characters `Interp` |
| WeapPush.UpdateReplacesWindow | utils/leap_weap.py:69-84 | on a clean expression, one update replaces the window's pairs with LEAP's values and keeps every other pair, the growth rate and the trailer |
| WeapPush.PushOneStep | utils/leap_weap.py:62-84 | one scenario iteration writes its WEAP scenario's updated expression, or fails and leaves every expression as it was |
| WeapPush.PushOneIsStep | utils/leap_weap.py:62-84 | one iteration on its own is exactly the step's outcome |
| WeapPush.PushFromSteps | utils/leap_weap.py:62 | the scenario loop is the generic stop-at-first-failure loop over the step |
| WeapPush.PushDone | utils/leap_weap.py:62 | past the last scenario the loop changes nothing |
| WeapPush.StepsKeepKeys | utils/leap_weap.py:62 | steps that keep the set of scenarios make a loop that keeps it |
| WeapPush.StepsLeave | utils/leap_weap.py:62 | steps that leave one scenario alone make a loop that leaves it alone |
| WeapPush.StepsRunToEnd | utils/leap_weap.py:62 | a loop whose steps' success is independent of earlier steps runs to the end exactly when every step succeeds |
| WeapPush.PushKeepsScenarios | utils/leap_weap.py:84 | a push never adds or removes a WEAP scenario |
| WeapPush.PushLeavesOthers | utils/leap_weap.py:63-84 | a scenario that no remaining iteration names keeps its expression |
| WeapPush.PushSucceedsIff | utils/leap_weap.py:62-84 | with distinct WEAP scenarios, the push runs to the end exactly when every iteration finds its scenario and its expression passes the guard and splits |
| WeapPush.PushWritesEach | utils/leap_weap.py:62-84 | with distinct WEAP scenarios, a completed push leaves in each WEAP scenario its old expression updated with the data of the LEAP scenario at the same position, exactly one new expression per scenario |
| WeapPush.PushWritesLater | utils/leap_weap.py:62-84 | a later iteration's write survives the earlier ones |
| WeapPush.PushWritesFirst | utils/leap_weap.py:62-84 | the first iteration's write survives the later ones |
| WeapPush.CurrentAccountsWritten | leap_weap_sub.py:38-43 | Current Accounts is appended to both local lists and processed last; a completed push leaves it updated with LEAP's Current Accounts data |
| WeapPush.WeapVariable.constructor | utils/leap_weap.py:65 | a WEAP variable starts with the given expression for each scenario |
| WeapPush.WeapVariable.AddLeapDataToWeapInterp | utils/leap_weap.py:41-84 | the procedure leaves exactly the expressions and stop reason of the push specification: Current Accounts appended to local copies, one update per scenario, the first failure ending the run; the copies at leap_weap_sub.py:34-67 and wave_integration.py:226-260 are the same procedure |
| WeapPush.WeapVariable.PushScenario | utils/leap_weap.py:63-84 | one pass of the scenario loop does exactly one step of the specification: it fails on a missing scenario, the guard or the split, and otherwise writes the spliced expression |
| OrderedDicts.Keys | utils/leap_weap.py:89 | a dictionary's keys are its entries' keys in insertion order |
| OrderedDicts.Values | wave_integration.py:495 | a dictionary's values are its entries' values in insertion order |
| OrderedDicts.Get | utils/leap_weap.py:93 | a lookup fails exactly for an absent key and otherwise returns that key's entry |
| OrderedDicts.PutKeys | wave_integration.py:462 | assigning to a present key keeps the key order; a new key is appended |
| OrderedDicts.PutGet | utils/leap_weap.py:93 | after `d[k] = v`, `d[k]` is `v` and every other key reads as before |
| OrderedDicts.PutKeepsDistinct | utils/leap_weap.py:93 | assignment never duplicates a key |
| OrderedDicts.PutEntry | utils/leap_weap.py:93 | every entry after an assignment is an old entry or the new one |
| OrderedDicts.PutGrows | wave_integration.py:466 | an assignment keeps every key and adds its own |
| OrderedDicts.IndexOfValue | wave_integration.py:468-470 | the first entry with a given value, or -1 exactly when no entry has it |
| Timeslices.IndexOf | wave_integration.py:267 | `index` gives -1 exactly for an absent name, else its first position |
| Timeslices.GetMonthNum | wave_integration.py:264-271 | a month number lies in 1..12 |
| Timeslices.MonthNames | wave_integration.py:266-271 | only a month's name has a number, and the number is the month's place in the year |
| Timeslices.MonthNumbers | wave_integration.py:265-267 | January..December map to 1..12 |
| Timeslices.MonthsDistinct | wave_integration.py:265 | the twelve month names are distinct |
| Timeslices.MonthDictGet | utils/leap_weap.py:87 | `dict(zip(months, 1..))` has exactly the listed months, each mapped to its last 1-based position |
| Timeslices.MonthDictLast | utils/leap_weap.py:87 | the last month listed wins; any other name reads as in the months before it |
| Timeslices.GetLeapTimesliceInfo | utils/leap_weap.py:86-99 | the timeslice loop returns exactly the timeslice-map specification, the first unknown month aborting |
| Timeslices.TimesliceInfoCorrect | utils/leap_weap.py:86-99 | the map fails exactly when some timeslice has no `:` or names an unlisted month; otherwise it holds each timeslice once with its month's position |
| Timeslices.TimesliceFromSound | utils/leap_weap.py:90-93 | every entry added is a timeslice with its month's position, and no key repeats |
| Timeslices.TimesliceFromOk | utils/leap_weap.py:91-97 | the loop succeeds exactly when every timeslice has a known month |
| Timeslices.TimesliceOrder | utils/leap_weap.py:89-93 | with distinct timeslice names, the map's keys are the timeslices in LEAP's order |
| Timeslices.TimesliceKeys | utils/leap_weap.py:89-93 | new distinct timeslices are appended to the keys in order |
| Timeslices.NewKey | utils/leap_weap.py:93 | the first of distinct new timeslices is appended and the rest stay new |
| Settings.GetLeapCalcYears | wave_integration.py:186-193 | the year loop returns the calculated-year list, and fails exactly when `resultsEvery` is 0 and the range is non-empty |
| Settings.CalcYearsMembers | wave_integration.py:189-191 | a year is calculated exactly when it lies in [FirstScenarioYear, EndYear] and `resultsEvery` divides it |
| Settings.CalcYearsAscending | wave_integration.py:189-191 | the calculated years are strictly ascending and within the range |
| Settings.CheckListSeparator | wave_integration.py:534-538 | the separator is accepted exactly when it is one character, and that character is used |
| Settings.UnitMultiplier | wave_integration.py:558-567 | a multiplier exists exactly for Population, GDP and Industrial_VA_fraction, and is positive; any other branch aborts |
| Settings.UnitMultipliers | wave_integration.py:558-563 | the three known branches have the factors 1, 1e-9 and 100 |
| Scenarios.OtherApp.constructor | wave_integration.py:453 | the other application starts with the given `ResultsShown` flags |
| Scenarios.OtherApp.DisableAllScenarioCalcs | wave_integration.py:181-183 | every scenario of the other application is switched off and none is added |
| Scenarios.OtherApp.Enable | wave_integration.py:474 | enabling succeeds exactly for an existing scenario and switches only that one on |
| Scenarios.MapScenarios | wave_integration.py:451-495 | the mapping block leaves the flags and returns the lists (or error) of the mapping specification |
| Scenarios.MapOne | wave_integration.py:457-478 | one pass of the scenario loop is one step of the specification, the enable block inside the no-exact-match branch |
| Scenarios.MapStops | wave_integration.py:474 | once enabling fails, later scenarios change nothing |
| ScenarioLaws.CollectIff | wave_integration.py:457 | a value is collected exactly when some scenario below `n` gives it |
| ScenarioLaws.AnyIff | wave_integration.py:457 | a condition holds for some scenario below `n` exactly when one index satisfies it |
| ScenarioLaws.JustifiedIff | wave_integration.py:457-470 | a pair is collected exactly when one of the scenarios contributes it |
| ScenarioLaws.EnablesIff | wave_integration.py:472-478 | a scenario is collected as enabled exactly when one of the scenarios enables it |
| ScenarioLaws.TableStep | wave_integration.py:463-478 | with consistent pairs, a table lookup adds exactly the scenario's pair, and the enabled target is that pair's other side |
| ScenarioLaws.StepIsNext | wave_integration.py:457-478 | while the pairs stay consistent, the loop step is the per-scenario step |
| ScenarioLaws.MapIsNext | wave_integration.py:451-478 | the mapping loop equals the per-scenario loop: its pairs stay consistent, and it never adds scenarios |
| ScenarioLaws.NextDomain | wave_integration.py:453-478 | the loop never adds or removes scenarios of the other application |
| ScenarioLaws.NextConsistent | wave_integration.py:461-470 | every pair is an exact match or the predefined table's pair |
| ScenarioLaws.NextSound | wave_integration.py:457-470 | every pair in the mapping is the pair of a calculated scenario |
| ScenarioLaws.NextComplete | wave_integration.py:457-470 | unless the loop failed, every calculated scenario with a pair has its LEAP name among the keys |
| ScenarioLaws.NextEnables | wave_integration.py:453-478 | unless the loop failed, exactly the scenarios that the table pairs with a calculated scenario end up enabled |
| ScenarioLaws.NextFails | wave_integration.py:472-478 | the loop fails exactly when a calculated scenario without exact match is paired by the table with a missing scenario |
| ScenarioLaws.NextCalculated | wave_integration.py:456-459 | `at_least_1_calculated` says whether some scenario other than Current Accounts shows results |
| ScenarioLaws.MapShown | wave_integration.py:451-478 | after the mapping, the other application's shown scenarios are exactly those enabled through the table (an exact match stays disabled) |
| ScenarioLaws.MapOutcome | wave_integration.py:481-495 | each error (missing scenario, none calculated, none mapped) happens exactly in its case; otherwise the two lists have equal positive length and each position is a scenario's pair, and every calculated scenario with a pair has its LEAP name among the keys |
| ScenarioLaws.AnyBreaks | wave_integration.py:474 | the fold over failing scenarios agrees with "some scenario fails" |
| ScenarioLaws.AnyCalculated | wave_integration.py:458 | the fold over calculated scenarios agrees with "some scenario is calculated" |
| Hydro.CapacityYear | wave_integration.py:641-645 | the capacity year is `y` inside LEAP's range, its base year before it, its end year after it |
| Hydro.MonthValue | wave_integration.py:661-662 | the availability is at most 100, and is the `int` 100 exactly when the cap applied (else the rounded `float`) |
| Hydro.RowFor | wave_integration.py:656-665 | a written row has the year, the timeslice name and a value capped at 100 |
| Hydro.Lines | wave_integration.py:665 | the file has one line per row |
| Hydro.CsvFile.constructor | wave_integration.py:611 | a new CSV file is empty |
| Hydro.CsvFile.WriteLine | wave_integration.py:665 | `WriteLine` appends exactly one line |
| Hydro.WriteHydroFile | wave_integration.py:611-667 | the file is written exactly when the rows specification succeeds; then its lines are those rows in order, each `str(year) sep name sep str(value)`, and `num_lines_written` is their count |
| Hydro.RowTextYear | wave_integration.py:665 | with a separator that is not a digit or `-`, a line's first column ends at the first separator and reads back as the row's year |
| Hydro.WriteYear | wave_integration.py:640-667 | one year appends its rows to the file and to the rows specification, or fails as the specification does |
| Hydro.BranchCapacityOf | wave_integration.py:641-651 | the capacity loop sums the plants' capacities in the capacity year |
| Hydro.YearRowsOf | wave_integration.py:654-667 | the timeslice loop with its `month_vals` cache gives exactly the rows of the year |
| Hydro.WriteRows | wave_integration.py:665-667 | the rows are written in order |
| Hydro.TimesliceRow | wave_integration.py:657-663 | a timeslice's row is computed once per month and reused from the cache, capped at 100 |
| Hydro.YearRowsStep | wave_integration.py:656-665 | one more timeslice appends its row or ends the year with its failure |
| Hydro.YearRowsErr | wave_integration.py:657 | a failed timeslice ends the year with that failure |
| Hydro.FileRowsErr | wave_integration.py:640 | a failed year ends the file with that failure |
| Hydro.LinesSnoc | wave_integration.py:665 | one more row adds one more line at the end |
| HydroLaws.YearRowsLaw | wave_integration.py:656-667 | a year that does not fail has one row per timeslice, in order, each that timeslice's row |
| HydroLaws.YearRowsFail | wave_integration.py:656-663 | a year fails exactly when one of its timeslices fails |
| HydroLaws.FileRowsStep | wave_integration.py:640-654 | a year without positive capacity adds nothing; one with it adds its rows |
| HydroLaws.FileRowsCount | wave_integration.py:654-667 | there are as many rows as timeslices times positive-capacity years |
| HydroLaws.FileRowsLaw | wave_integration.py:640-667 | every row belongs to a positive-capacity year before the end and is that timeslice's row |
| HydroLaws.HydroRowsLaw | wave_integration.py:619-667 | a written file had unit GJ and a whole number of years of months, has timeslices times positive-capacity years rows from WEAP's base year up to but not including its end year, each value capped at 100 |
| HydroLaws.FileRowsErrors | wave_integration.py:640-667 | the year loop fails only on a timeslice's month or a missing generation value |
| HydroLaws.YearRowsErrors | wave_integration.py:656-663 | a year fails only on a timeslice's month or a missing generation value |
| HydroLaws.HydroRowsChecks | wave_integration.py:619-637 | the unit error happens exactly for a unit other than GJ, the monthly error exactly for a GJ unit and a generation count not divisible by 12 |
| HydroReferences.XlsxNamesDistinct | wave_integration.py:600 | different branch or scenario ids never share a file name |
| HydroReferences.NameParts | wave_integration.py:600 | the ids in a file name are determined by the name |
| HydroReferences.AvailabilityReadsBack | wave_integration.py:701 | the reference names the file and the row count, which reads back from it |
| HydroReferences.LeapHydroPlants.constructor | wave_integration.py:701 | the LEAP plants start with the given Maximum Availability expressions |
| HydroReferences.LeapHydroPlants.PointAt | wave_integration.py:676-701 | a file with no rows changes nothing; otherwise every plant of the branch in this scenario reads `ReadFromExcel(file, A1:C<n>)` |
| HydroReferences.ReferencedAt | wave_integration.py:694-701 | each plant of the branch in this scenario reads the file, and every other expression is unchanged |
| HydroReferences.ScenarioPairs | wave_integration.py:597 | scenario `i` pairs the `i`-th LEAP and WEAP scenarios |
| HydroReferences.MoveHydroAvailability | wave_integration.py:596-701 | the loop over scenarios and branches leaves exactly the expressions and stop reason of the specification |
| HydroReferences.MoveBranches | wave_integration.py:598-701 | the loop over one scenario's branches meets the specification |
| HydroReferences.MoveBranch | wave_integration.py:600-701 | one branch writes its file and then points the plants at it when it has rows |
| HydroReferences.BranchMovesStop | wave_integration.py:598 | once a branch fails, later branches change nothing |
| HydroReferences.BranchMovesNext | wave_integration.py:598 | one more branch applies that branch's move |
| HydroReferences.MovesThroughStop | wave_integration.py:597-598 | once an item fails, later items change nothing |
| HydroReferences.ScenarioMovesNext | wave_integration.py:597 | one more scenario runs all branches for it |
| HydroReferences.ScenarioMovesStop | wave_integration.py:597 | once a scenario fails, later scenarios change nothing |
| Channels.Total | wave_integration.py:721-723 | a region's total is the `int` 0 exactly when it has no branches, and a `float` otherwise |
| Channels.RegionTotal | wave_integration.py:721-723 | the branch loop adds the region's supply requirements in order to the `int` 0 and returns that total |
| Channels.RebuildExpression | wave_integration.py:718-757 | the `expr` loop of each channel (lines 718-727 and 749-757) yields `Interp(` plus `year sep str(total) sep` per WEAP year with the last character replaced by `)` |
| Channels.RebuildStep | wave_integration.py:724 | one more year appends one more entry |
| Channels.RebuiltShape | wave_integration.py:718-727 | with at least one year the rebuilt text is the Interp expression of the year pairs closed by `)`; with none it is `Interp)` |
| Channels.RebuiltReadsBack | wave_integration.py:718-727 | a rebuilt expression splits into `Interp(` and `)`, and a push of other values for those years gives the expression rebuilt from them |
| Channels.EmptySides | wave_integration.py:727 | with no pairs outside the window the split parts are `Interp(` and `)` |
| Channels.LeapBranchVariable.constructor | wave_integration.py:732 | a LEAP branch variable starts with the given expression per region and scenario |
| Channels.LeapBranchVariable.WriteRebuiltExpressions | wave_integration.py:715-763 | in both channels, for each scenario pair and region, the rebuilt expression from the WEAP scenario is written to the region and LEAP scenario |
| Channels.RegionWritesAt | wave_integration.py:717-732 | each region of the scenario gets its rebuilt text, and every other cell is unchanged |
| Channels.WrittenAt | wave_integration.py:716-732 | with distinct LEAP scenarios, each region of each mapped scenario holds the text from its WEAP partner, and every other cell is unchanged |
| Convergence.ElementWithinBand | wave_integration.py:862-865 | an element passes exactly when both values are recorded, the previous is not 0, and the current lies within `tolerance` times the previous one's size of it |
| Convergence.StagePasses | wave_integration.py:861-867 | a check loop passes exactly when the previous array is long enough and every element passes |
| Convergence.ZeroOverZeroRaises | wave_integration.py:861-867 | when both values at an index are 0 and every element before it passes, the check loop raises ZeroDivisionError there |
| Convergence.StageOnEmpty | wave_integration.py:871-872 | a check against an empty previous array raises IndexError unless there is nothing to check |
| Convergence.StageNeverPassesUnset | wave_integration.py:881-887 | a check never passes an array whose last slot was never written |
| Convergence.CheckStage | wave_integration.py:861-867 | the check loop with its early `break` returns the stage specification |
| Convergence.Cross | wave_integration.py:809-811 | the nested loops visit `|xs|*|ys|` combinations |
| Convergence.CrossAt | wave_integration.py:809-814 | position `i*|ys|+j` of the nested loops is the `i`-th outer with the `j`-th inner item |
| Convergence.CrossCount3 | wave_integration.py:806-811 | three nested loops visit the product of their lengths, the size the arrays are made with |
| Convergence.LeapKeysFill | wave_integration.py:806-814 | the LEAP loops' keys fill the LEAP array exactly |
| Convergence.WeapSizeExcess | wave_integration.py:838-847 | as written, the WEAP array is longer than its keys by `targets*scenarios*BaseYear - BaseYear + 1` |
| Convergence.MacroEchoRaises | wave_integration.py:817-828 | with LEAP-Macro on and more LEAP-Macro keys than LEAP slots, recording a pass raises IndexError at the read of line 827 |
| Convergence.Range | wave_integration.py:843 | `range(lo, hi)` holds `lo..hi-1` and excludes `hi` |
| Convergence.Record | wave_integration.py:806-814 | the `numpy.empty` array filled through `current_index` is the recorded array, raising on a negative size or on a write past its end |
| Convergence.RecordedExact | wave_integration.py:806-814 | an array sized for exactly its keys holds every key's value in order and no empty slot |
| Convergence.RecordedTail | wave_integration.py:838-847 | an array with more slots than keys ends in an empty slot |
| Convergence.CheckPasses | wave_integration.py:859-887 | the staged test passes exactly when LEAP passes, LEAP-Macro passes when enabled, and WEAP passes |
| Convergence.MacroCheckRaises | wave_integration.py:870-872 | with LEAP-Macro on, its previous array never refreshed, and LEAP results passing, the test raises IndexError |
| Convergence.RunStops | wave_integration.py:541 | once a pass raises, the run's outcome is that error |
| Convergence.RunCount | wave_integration.py:541-903 | in the loop with `excel` kept bound, every pass counts: after `n` passes `completed_iterations` is `n`, and convergence does not leave the loop |
| Convergence.RunConverged | wave_integration.py:851-887 | after a pass, `results_converged` is the result of that pass's test, and there is no test before the third pass |
| Convergence.EarlyNotConverged | wave_integration.py:851 | the first two passes never report convergence |
| Convergence.NeverConverges | wave_integration.py:838-887 | with the WEAP array's length as written, at least one WEAP target and scenario, and `0 <= BaseYear <= EndYear`, the run never reports convergence |
| Convergence.WeapArrayEndsUnset | wave_integration.py:838-847 | the recorded WEAP array is longer than its keys, so its last slot stays empty |
| Convergence.AsWrittenRuns | wave_integration.py:531-704 | as written, the loop agrees with the corrected one for one pass, and any second pass ends in UnboundLocalError unless the first pass raised |
| Convergence.SecondPassRaises | wave_integration.py:541-903 | as written, a run with `max_iterations >= 2` never completes, and no pass that completes reports convergence |
| Convergence.Coupling.constructor | wave_integration.py:525-528 | the loop starts with no passes and not converged (lines 322-323), and the previous LEAP, WEAP and LEAP-Macro arrays start empty |
| Convergence.Coupling.RecordResults | wave_integration.py:806-847 | the three arrays of this pass, or the error their recording raises, are those of the pass specification |
| Convergence.Coupling.CheckConvergence | wave_integration.py:859-887 | `results_converged` ends as the staged test's result (or the test's error), and no other variable changes |
| Convergence.Coupling.Iterate | wave_integration.py:542-903 | in the loop with `excel` kept bound, one pass takes the loop state from `n` passes to `n+1`: record, test from the third pass on while below the maximum, and keep this pass's LEAP and WEAP arrays |
| Convergence.Coupling.Run | wave_integration.py:541-903 | in the loop with `excel` kept bound, the loop runs exactly `max(0, max_iterations)` passes unless recording or the test raises, and ends in the state after that many passes |

## Left out

- COM automation, the GUI and Excel are not modelled: `win32` dispatch, `ShowProgressBar`, tkinter dialogs, the
  Excel conversion and `kill_excel`. Neither are busy-wait polling, `time`, logging and `print` (except the
  array read at wave_integration.py:827), nor the Julia subprocesses. What the simulators report is
  supplied as parameters and oracle functions.
- The registry and filesystem probing of `get_julia_path` and utils/julia.py, the pandas reshaping in
  weap_macro_sub.py, and the packaging script build.py are not part of this model.
- `str()` of floats is not modelled; value texts are supplied by the caller. `str()` of an `int` is
  modelled (`PyText.Str`). The availability formula,
  `round(...,1)` and `monthrange` are one supplied function. Floats are exact reals, so NaN,
  infinities and rounding are not modelled. The GDP factor is the decimal 1e-9.
- Python's `lower()` is modelled for ASCII letters only. `strip()` covers ASCII and Latin-1
  whitespace, and `int()` covers a sign and ASCII digits, without underscores or other
  Unicode digits.
- `sys.exit`, `exit()` and the exceptions that end a run are `Err` or `Some(error)` results. The
  message texts and languages are not modelled.
- utils/leap_weap.py imports only `logging` and `OrderedDict` (lines 1-2), so `_` and `sys` are
  not defined there. The Interp guard (lines 66-68) and the unknown-month handler (lines 95-97)
  raise NameError while building their message and never reach `sys.exit`. Both still abort
  before any write, so `WeapPush.PushError.NotInterp` and `Timeslices.TimesliceError.UnknownMonth`
  stand for that NameError; the exception's kind is not modelled.
- `get_month_num` on an unknown name shows a dialog and then fails when it returns its unbound
  variable. Both steps together are one `None`.
- Each pass of the iteration loop records results and tests them. The exchanges that come before
  (the push to WEAP, the hydropower channel, the water-requirement channels, the simulator runs) are
  modelled by their own members and are not composed into `Convergence.Coupling.Iterate`. Their
  effect on the results is carried by the per-pass readings. The one exception they raise in every
  run, the UnboundLocalError of the hydropower block in the second pass, is modelled by
  `Convergence.PassAsWritten` (see Findings).
- Convergence.Coupling.Run: models the loop with `excel` kept bound across passes, which runs all
  its passes. As written, the program raises UnboundLocalError in the second pass of any run with
  `max_iterations >= 2` (`Convergence.SecondPassRaises`), so `Run`'s promise holds for the source
  only when `max_iterations <= 1`, as in the module's own call at wave_integration.py:917.
- The nested recording loops are flattened into one loop over their combinations in the same order
  (`Convergence.CrossAt`). Each `numpy.empty` array is built in a local array and handed on as a sequence.
- The scenario mapper's starting application is a parameter. `main_integration` fixes it to LEAP,
  and both branches are modelled. The other application's scenarios are a map from name to flag,
  and the COM call `Scenarios.Exists(name)` becomes map membership.
- Hydro.WriteHydroFile: each hydropower year's rows are computed before they are written, so the
  rows of a year that fails are not written. The source writes each row as soon as it is computed
  (wave_integration.py:665), so its temp.csv then holds that year's earlier rows. The file's
  contents after a failure are not modelled. Deleting and converting the files is not modelled.
- The water-requirement channels' branch paths, `ResultValue` and `ActiveRegion`/`ActiveScenario` are
  abstracted into a supply function and a map keyed by region and LEAP scenario.
- WeapPush.WeapVariable.AddLeapDataToWeapInterp: `leap.baseyear`/`leap.endyear` and the `ValueRS`
  values times the multiplier, rendered by `str()`, are parameters. The branch and variable lookups
  are a map keyed by WEAP scenario.

## Findings

| source | as written | input that shows it | evidently intended | confidence | as-written member | corrected member |
|---|---|---|---|---|---|---|
| wave_integration.py:703-704 | `del excel` is inside the `while` body, but `excel` is bound only once, before the loop (line 531) | `max_iterations = 2` with a first pass that records without error: the second pass raises UnboundLocalError at line 681 (raised again by the `finally` at 687) or at line 703 | `excel` stays bound for every pass and is released after the loop, so every pass runs | not executed | Convergence.SecondPassRaises | Convergence.Coupling.Run |
