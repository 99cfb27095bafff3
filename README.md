# FireAlarmBot floor tracker in Dafny

This project models the floor-check tracker of FireAlarmBot. During a fire drill, wardens report through a Telegram bot each floor they have checked. The tracker, `FloorService`, keeps an in-memory log of those reports. It answers the queries behind the bot's summaries:
- the floors checked, listed once each in ascending order;
- the floors still unchecked;
- the number of checks;
- the most checked floor;
- the last checked floor;
- the percentage of floors checked.

The log is cleared after an hour; in the later versions, after an idle hour.

The repository keeps three versions of the tracker. Each version is its own module with a `class FloorService`. The log is a `seq<int>` field. The mutators are methods with `modifies` clauses, the queries are functions with `reads` clauses, and the timers are logical state:

| module | source file | what differs |
|---|---|---|
| `OriginalFloorService` | `FloorService.cs` | no range check; a `System.Threading.Timer` clears the log every whole hour after construction; the percentage is integer arithmetic |
| `RangedFloorService` | `FireAlarmBot/FloorService.cs` | floors 2 to 25 hard-coded; a `System.Timers.Timer`, created stopped, is restarted by every accepted floor |
| `ConfiguredFloorService` | `FireAlarmBot/Services/FloorService.cs` | bounds and interval come from `BotOptions`; the timer starts at construction; `AddCheckedFloor` parses a report text; one `FloorStatistics` snapshot |

Shared modules:
- `FloorLog` holds the LINQ semantics the queries rely on:
  - `Distinct` keeps elements in order of first occurrence;
  - `Distinct().OrderBy` gives the ascending view;
  - `Except` takes a set difference in the order of its first argument;
  - `Enumerable.Range`;
  - `GroupBy` followed by a stable `OrderByDescending` and `FirstOrDefault` gives the most checked floor;
  - `LastOrDefault`.
- `Timers` holds the two timer kinds on a logical millisecond clock. A tracker's `AdvanceClock(dt)` lets time pass and runs the clearing callback if the timer fires in that time.
- `FloorInput` holds the text side of `AddCheckedFloor`:
  - a decimal `int.TryParse`;
  - `Trim`, `Split` and `string.Join`;
  - the three report shapes: a range `a-b`, a comma list, a single number.

The properties proved:
- In the two later versions, every logged floor is in range. The class invariant `Valid()` says so, and every mutator keeps it. The first version logs any integer.
- The unique and unchecked floors partition the configured range.
- The most checked floor is the first of maximal count, or 0 when the log is empty. Any floor meeting that description is the one.
- The idle timer is restarted by each accepted floor. An idle hour therefore always ends with an empty log. In the first version, a floor added does not postpone the hourly clear.
- The parser decides between its three branches in the source's order:
  - the middle pieces of a range are ignored, and a descending range is accepted;
  - a list keeps the pieces that parse once trimmed, in order, and drops the others;
  - a text without `-` or `,` is a single floor exactly when `int.TryParse` accepts the whole text;
  - the text the confirmation echoes (`string.Join(", ", floors)`) of two floors or more parses back to the same list;
  - no report names a floor below 0.
- `Split` and `Join` are inverses; parsing the decimal form of an `int` gives it back.

Four behaviours of the source a reader may not expect:
- Range bounds and a single floor are parsed from untrimmed text, while list pieces are trimmed first. `int.TryParse` allows only ASCII white space around a number, `Trim` and `string.IsNullOrWhiteSpace` also skip Unicode white space such as the no-break space U+00A0. So `"\u00A05"` is an invalid floor, while the list piece `"\u00A05"` is floor 5 (`ExampleNoBreakSpace`).
- `AddCheckedFloor` never records a negative floor. Any '-' makes the text a range, so `-1` splits into an empty piece and `1` and is an invalid range (`ExampleNegativeFloor`), and no range bound, list piece or single number can then carry a sign (`CheckedFloorsAreUnsigned`). With a negative `MinFloor`, the basement floors can be recorded only through `AddFloor`.
- An empty floor list in the statistics snapshot is the source's sentinel text, modelled as `NoSuchFloors`.
- The configured version fills the unchecked-floors field of the statistics snapshot from the checked floors. See "## Findings".

## Model

| member | source | states |
|---|---|---|
| FloorLog.Distinct | FireAlarmBot/Services/FloorService.cs:93 | `Distinct()`: no duplicates, exactly the log's floors, in the order of their first occurrence in the log |
| FloorLog.DistinctAscending | FireAlarmBot/Services/FloorService.cs:84 | `Distinct().OrderBy(x => x)`: strictly ascending, exactly the log's floors, no longer than the log |
| FloorLog.AscendingIsDeterminedByElements | FireAlarmBot/Services/FloorService.cs:84 | two strictly ascending sequences with the same floors are equal, so the ascending distinct view of a log is unique |
| FloorLog.UniqueCountIsDistinctLength | FireAlarmBot/FloorService.cs:41-44 | `Distinct().Count()`, the length of the ascending view and the number of different floors agree, and none exceeds the log length |
| FloorLog.Range | FireAlarmBot/Services/FloorService.cs:92 | `Enumerable.Range(start, count)`: `count` ascending integers, the i-th being `start + i`, exactly those from `start` below `start + count` |
| FloorLog.RangeSnoc | FireAlarmBot/Services/FloorService.cs:45 | the range one longer is the range followed by the next integer, the order the `for` loop visits floors in |
| FloorLog.Except | FireAlarmBot/Services/FloorService.cs:94 | `Except`: no duplicates, exactly the members of the first sequence that are not in the second |
| FloorLog.ExceptKeepsAscending | FireAlarmBot/FloorService.cs:51 | `Except` applied to an ascending sequence is ascending |
| FloorLog.CheckedAndUncheckedPartition | FireAlarmBot/Services/FloorService.cs:88-96 | when every logged floor is in the range, each floor of the range is unique-checked or unchecked and never both, and the two lists' lengths add up to the number of floors |
| FloorLog.FirstMaximum | FireAlarmBot/Services/FloorService.cs:112-114 | stable `OrderByDescending` then `FirstOrDefault` over group counts: an index of the largest count, with every earlier count strictly smaller |
| FloorLog.FirstLargestGroup | FireAlarmBot/Services/FloorService.cs:111-114 | the key of the first largest group, with groups in order of first occurrence, is a logged floor of maximal count, first logged among floors of equal count |
| FloorLog.MostChecked | FireAlarmBot/Services/FloorService.cs:111-114 | 0 on an empty log; otherwise a logged floor checked at least as often as any other and first logged among equally frequent floors |
| FloorLog.MostCheckedIsUnique | FireAlarmBot/Services/FloorService.cs:111-114 | any logged floor meeting that description is `MostChecked` of the log, so ties go to the earliest first occurrence |
| FloorLog.LastAfterAppend | FireAlarmBot/Services/FloorService.cs:115 | after appending `f`, `LastOrDefault` is `f`, duplicates included |
| FloorLog.LastOrDefault | FireAlarmBot/Services/FloorService.cs:115 | `LastOrDefault()`: 0 on an empty log, otherwise a logged floor; `LastAfterAppend` fixes it as the floor appended last |
| FloorLog.Occurrences | FireAlarmBot/Services/FloorService.cs:113 | `g.Count()` of a floor's group: at most the log length, and 0 exactly when the floor was never logged |
| Timers.Advance | FireAlarmBot/Services/FloorService.cs:16-17 | a `System.Timers.Timer` that elapses by `upTo` keeps running (AutoReset) and is next due after `upTo`, at most one interval later; a timer that does not elapse is unchanged |
| Timers.AdvanceKeepsArmed | FireAlarmBot/Services/FloorService.cs:16-17 | letting time pass keeps a running timer due within one interval of the new time |
| Timers.Restart | FireAlarmBot/Services/FloorService.cs:31-32 | `Stop()` then `Start()` leaves the timer due exactly one interval from now, whatever its state |
| Timers.Start | FireAlarmBot/Services/FloorService.cs:18 | `_timer.Start()` leaves the timer running: a running timer unchanged, a stopped one due one interval from now, and a timer due within the interval stays so |
| Timers.Stop | FireAlarmBot/Services/FloorService.cs:31 | `_timer.Stop()`: the stopped timer raises no `Elapsed` event at any time |
| Timers.RestartElapsesAfterInterval | FireAlarmBot/Services/FloorService.cs:31-32 | a restarted timer elapses by `upTo` exactly when a whole interval has passed since the restart; `Start()` alone leaves a running timer as it was |
| Timers.PeriodElapsesAtCallbackTimes | FloorService.cs:10 | the hourly `System.Threading.Timer` runs its callback between two times exactly when a positive multiple of the period lies between them |
| FloorInput.TrimRemovesPadding | FireAlarmBot/Services/FloorService.cs:57-58 | trimming removes white space before and after a text that begins and ends with other characters, for the white space of `Trim()` (`Char.IsWhiteSpace`) and for that of `int.TryParse` alike |
| FloorInput.Trim | FireAlarmBot/Services/FloorService.cs:57 | `x.Trim()` is no longer than `x`, empty exactly when `x` is blank, and otherwise begins and ends with a character that is not white space |
| FloorInput.IsBlank | FireAlarmBot/Services/FloorService.cs:37 | `string.IsNullOrWhiteSpace` of a non-null text: every character is `Char.IsWhiteSpace`; `Trim` is empty exactly then |
| FloorInput.TryParseInt | FireAlarmBot/Services/FloorService.cs:43 | `int.TryParse` succeeds only with a value in the 32-bit range |
| FloorInput.TryParseIntSkipsOnlyNumberWhiteSpace | FireAlarmBot/Services/FloorService.cs:70 | a text `int.TryParse` accepts holds no white space other than tab to carriage return and space, so a no-break space anywhere makes it fail |
| FloorInput.FormatNat | FireAlarmBot/Services/FloorService.cs:49 | the decimal form of a natural number is a non-empty run of digits denoting it |
| FloorInput.Format | FireAlarmBot/Services/FloorService.cs:65 | the decimal form of an `int` is non-empty, begins and ends without white space, and is all digits when the number is not negative |
| FloorInput.ParseFormatted | FireAlarmBot/Services/FloorService.cs:57-58 | parsing the decimal form of any 32-bit integer, padded with ASCII white space or not, gives the integer back |
| FloorInput.Split | FireAlarmBot/Services/FloorService.cs:42 | `Split(sep)`: at least one piece, no piece holds the separator, and joining the pieces with the separator gives the text back |
| FloorInput.SplitJoin | FireAlarmBot/Services/FloorService.cs:56 | splitting pieces joined by a separator none of them holds gives the pieces back |
| FloorInput.ParseTokens | FireAlarmBot/Services/FloorService.cs:56-59 | the comma pieces that parse after trimming, in order: no more than there are pieces, and none exactly when no piece parses |
| FloorInput.ParseTokensOne | FireAlarmBot/Services/FloorService.cs:57-58 | one piece yields its value when it parses once trimmed, and nothing otherwise |
| FloorInput.ParseTokensAppend | FireAlarmBot/Services/FloorService.cs:56-59 | the floors of two runs of pieces are the first run's followed by the second's, so with `ParseTokensOne` every piece is kept or dropped in place |
| FloorInput.ParseFormattedTokens | FireAlarmBot/Services/FloorService.cs:56-59 | pieces that trim to the decimal forms of floors yield exactly those floors, in order |
| FloorInput.Parse | FireAlarmBot/Services/FloorService.cs:37-77 | blank input is `EmptyInput`; with a '-' the result is a range or `InvalidRange`; else with a ',' the list of the pieces that parse, or `UnrecognisedFloors` exactly when none does; else the floor `int.TryParse` gives for the whole text, or `InvalidFloor` exactly when it fails |
| FloorInput.ParseRange | FireAlarmBot/Services/FloorService.cs:40-51 | the range branch succeeds exactly when the first and the last '-' pieces both parse, with those values as bounds, and is `InvalidRange` otherwise |
| FloorInput.ParseList | FireAlarmBot/Services/FloorService.cs:54-62 | the list branch succeeds exactly when some ',' piece parses once trimmed, with the floors of `ParseTokens` of the pieces, and is `UnrecognisedFloors` otherwise |
| FloorInput.ParseSingle | FireAlarmBot/Services/FloorService.cs:70-77 | the last branch succeeds exactly when `int.TryParse` accepts the untrimmed text, with its value, and is `InvalidFloor` otherwise |
| FloorInput.SplitCount | FireAlarmBot/Services/FloorService.cs:42-43 | a text holds the separator exactly when it splits into two pieces or more, so `range.Length >= 2` always holds in the range branch |
| FloorInput.DashMeansRange | FireAlarmBot/Services/FloorService.cs:37-40 | a text with a '-' is not blank and takes the range branch |
| FloorInput.CommaMeansList | FireAlarmBot/Services/FloorService.cs:37-54 | a text with a ',' but no '-' is not blank and takes the list branch |
| FloorInput.ParseRangePieces | FireAlarmBot/Services/FloorService.cs:40-51 | any '-'-joined text of two pieces or more is the range of its first and last pieces if both parse, and `InvalidRange` if either does not |
| FloorInput.ParseSingleIsTryParse | FireAlarmBot/Services/FloorService.cs:70-77 | a non-blank text without '-' or ',' is a single floor exactly when `int.TryParse` accepts it, with its value, and `InvalidFloor` otherwise |
| FloorInput.ParseRangeText | FireAlarmBot/Services/FloorService.cs:40-50 | for non-negative 32-bit `start` and `end`, `start-…-end` parses to the range from `start` to `end` whatever the middle pieces hold, and a descending range is accepted as it is |
| FloorInput.ParseListText | FireAlarmBot/Services/FloorService.cs:54-67 | the list the confirmation echoes, `string.Join(", ", floors)`, parses back to the same list for two floors or more |
| FloorInput.FloorsText | FireAlarmBot/Services/FloorService.cs:65 | `string.Join(", ", floors)`: the pieces of `ListPieces` joined by commas; `FloorsTextSplits` states how it splits back |
| FloorInput.FloorsTextSplits | FireAlarmBot/Services/FloorService.cs:65 | `string.Join(", ", floors)` splits at its commas into the pieces `Format(floors[0])`, then ` ` followed by each further floor's decimal form |
| FloorInput.ParseSingleText | FireAlarmBot/Services/FloorService.cs:70-74 | a non-negative 32-bit floor's decimal form, padded with ASCII white space or not, parses to that single floor |
| FloorInput.ParsedFloorsAreUnsigned | FireAlarmBot/Services/FloorService.cs:40-77 | whatever report `Parse` accepts, its range bounds, its list floors and its single floor are all at least 0 |
| FloorInput.UnsignedValue | FireAlarmBot/Services/FloorService.cs:43 | `int.TryParse` of a text without '-' gives no negative number |
| FloorInput.UnsignedTokens | FireAlarmBot/Services/FloorService.cs:56-59 | the list floors of pieces that hold no '-' are all at least 0 |
| FloorInput.ExampleNegativeFloor | FireAlarmBot/Services/FloorService.cs:40-51 | the report `-1` is an invalid range, not floor -1 |
| FloorInput.ExampleRange | FireAlarmBotTests/BotServiceTests.cs:60-73 | the report `1-3` is the range from 1 to 3 |
| FloorInput.ExampleList | FireAlarmBotTests/BotServiceTests.cs:85-98 | the report `1, 2, 3` is the list 1, 2, 3 |
| FloorInput.ExampleListText | FireAlarmBotTests/BotServiceTests.cs:99 | the floors 1, 2, 3 are echoed as `1, 2, 3` |
| FloorInput.ExampleListWithWord | FireAlarmBot/Services/FloorService.cs:54-62 | the report `1, a, 3` is the list 1, 3: the piece that is not a number is dropped |
| FloorInput.ExampleListWithWordTokens | FireAlarmBot/Services/FloorService.cs:56-59 | the pieces `1`, ` a`, ` 3` yield the floors 1 and 3 |
| FloorInput.ExampleNoBreakSpace | FireAlarmBot/Services/FloorService.cs:37-77 | a lone no-break space is empty input; before a single number it makes an invalid floor; before a list piece it is trimmed away |
| FloorInput.ExampleBadRange | FireAlarmBotTests/BotServiceTests.cs:173-184 | the report `1-a` is an invalid range |
| FloorInput.ExampleBadFloor | FireAlarmBotTests/BotServiceTests.cs:195-206 | the report `abc` is an invalid floor |
| ConfiguredFloorService.AdmittedFloors | FireAlarmBot/Services/FloorService.cs:23 | of a sequence of floors passed to `AddFloor`, exactly those within the configured bounds are logged, no more of them than were passed |
| ConfiguredFloorService.InRange | FireAlarmBot/Services/FloorService.cs:23 | the guard of `AddFloor`: a floor is recorded unless it is below `MinFloor` or above `MaxFloor` |
| ConfiguredFloorService.Admitted | FireAlarmBot/Services/FloorService.cs:21-28 | what `AddFloor` on each of a sequence of floors logs, in order; `AdmittedFloors` states which floors those are |
| ConfiguredFloorService.AdmittedSnoc | FireAlarmBot/Services/FloorService.cs:64 | passing one more floor logs it at the end if it is in range, and nothing otherwise |
| ConfiguredFloorService.AdmittedRangeStep | FireAlarmBot/Services/FloorService.cs:45-46 | one more step of the range loop logs the next floor at the end if it is in range, and nothing otherwise |
| ConfiguredFloorService.Requested | FireAlarmBot/Services/FloorService.cs:45-72 | a range asks for `start`, `start + 1`, … up to `end`, exactly the integers between them, and nothing when `start > end`; a list for its floors as parsed; a single report for its floor |
| ConfiguredFloorService.CheckedFloorsAreUnsigned | FireAlarmBot/Services/FloorService.cs:40-77 | every floor a successful `AddCheckedFloor` asks for, and so every floor it records, is at least 0 |
| ConfiguredFloorService.CheckedPercentage | FireAlarmBot/Services/FloorService.cs:125 | the percentage is never negative, at most 100 when no more floors are unique than configured, and 100 exactly when as many floors are unique as are configured |
| ConfiguredFloorService.Listing | FireAlarmBot/Services/FloorService.cs:119-120 | the `Any() ? string.Join(...) : "Нет таких этажей"` fallback: the sentinel exactly for no floors, otherwise the floors themselves |
| ConfiguredFloorService.StatisticsAsWritten | FireAlarmBot/Services/FloorService.cs:98-127 | `TotalChecks` is the log length; `UniqueFloors` the number of different floors; `CheckedFloors` the ascending floors, or the sentinel exactly when the log is empty; `UncheckedFloors` the same as `CheckedFloors`; `MostCheckedFloor` is `MostChecked` of the log, the first logged floor of maximal count or 0; `LastCheckedFloor` the last logged floor, or 0 on an empty log |
| ConfiguredFloorService.UncheckedFloors | FireAlarmBot/Services/FloorService.cs:92-94 | the configured floors not logged, ascending, empty exactly when every configured floor is logged |
| ConfiguredFloorService.Statistics | FireAlarmBot/Services/FloorService.cs:109 | the snapshot with `UncheckedFloors` listing the unchecked floors, or the sentinel exactly when all configured floors are logged; every other field as written |
| ConfiguredFloorService.UncheckedFieldRepeatsCheckedFloors | FireAlarmBot/Services/FloorService.cs:109 | after floor 5 alone, the snapshot as written lists 5 as unchecked, while the corrected snapshot lists unchecked floors without 5 |
| ConfiguredFloorService.StatisticsPartitionFloors | FireAlarmBot/Services/FloorService.cs:98-127 | with an in-range log, the corrected snapshot's checked and unchecked lists partition the configured floors, and the percentage lies between 0 and 100 |
| ConfiguredFloorService.FloorService.constructor | FireAlarmBot/Services/FloorService.cs:12-19 | an empty log, and the idle timer started, due one interval after construction |
| ConfiguredFloorService.FloorService.AddFloor | FireAlarmBot/Services/FloorService.cs:21-33 | a floor out of bounds changes neither the log nor the timer; any other is appended and the timer is due one interval from now; the invariant holds |
| ConfiguredFloorService.FloorService.AddCheckedFloor | FireAlarmBot/Services/FloorService.cs:35-78 | the result is the parse of the input; on an error nothing changes; otherwise the admitted floors of the request are appended in order, and the timer is restarted if any was admitted |
| ConfiguredFloorService.FloorService.AddFloorRange | FireAlarmBot/Services/FloorService.cs:45-46 | `AddFloor` on `start` to `end` in order appends their admitted floors and restarts the timer if any was admitted |
| ConfiguredFloorService.FloorService.AddFloors | FireAlarmBot/Services/FloorService.cs:64 | `ForEach(AddFloor)` appends the admitted floors of the list in order and restarts the timer if any was admitted |
| ConfiguredFloorService.FloorService.GetUniqueFloorsAsync | FireAlarmBot/Services/FloorService.cs:80-86 | strictly ascending, exactly the logged floors |
| ConfiguredFloorService.FloorService.GetUncheckedFloorsAsync | FireAlarmBot/Services/FloorService.cs:88-96 | strictly ascending, exactly the configured floors not logged; under the invariant its length and the unique floors' add up to the number of floors |
| ConfiguredFloorService.FloorService.GetStatisticsAsync | FireAlarmBot/Services/FloorService.cs:98-127 | the snapshot as written, whose percentage lies between 0 and 100 under the invariant |
| ConfiguredFloorService.FloorService.ClearLogs | FireAlarmBot/Services/FloorService.cs:129-136 | the log is empty and nothing else changes |
| ConfiguredFloorService.FloorService.AdvanceClock | FireAlarmBot/Services/FloorService.cs:16-17 | the log is cleared exactly when the idle timer elapses in the time passed, so always when a whole interval passes; the timer stays armed |
| ConfiguredFloorService.DebounceScenario | FireAlarmBot/Services/FloorService.cs:31-32 | floors reported at minutes 50 and 100 are both logged at minute 159, and both are gone at minute 160 |
| ConfiguredFloorService.RangeReportIsClipped | FireAlarmBot/Services/FloorService.cs:40-46 | with the default options, `1-3` is the range from 1 to 3 and logs floors 2 and 3 only |
| ConfiguredFloorService.DefaultAdmitsTwoAndThree | FireAlarmBot/Options/BotOptions.cs:6-7 | of the floors 1 to 3, the default bounds admit 2 and 3 |
| RangedFloorService.AcceptedIsFloorRange | FireAlarmBot/FloorService.cs:18 | the floors not rejected by `floor <= 1 \|\| floor > 25` are exactly 2 to 25, the members of `Enumerable.Range(2, 24)` |
| RangedFloorService.Accepted | FireAlarmBot/FloorService.cs:18 | the guard of `AddFloor`: a floor is recorded unless it is at most 1 or above 25 |
| RangedFloorService.FloorService.constructor | FireAlarmBot/FloorService.cs:9-14 | an empty log and a timer created but not started |
| RangedFloorService.FloorService.AddFloor | FireAlarmBot/FloorService.cs:16-23 | a floor up to 1 or above 25 changes neither the log nor the timer; any other is appended and the timer is due an hour from now; the invariant holds |
| RangedFloorService.FloorService.GetUniqueFloors | FireAlarmBot/FloorService.cs:25-28 | strictly ascending, exactly the logged floors |
| RangedFloorService.FloorService.GetTotalFloorsChecked | FireAlarmBot/FloorService.cs:36-39 | the number of checks, repeats included |
| RangedFloorService.FloorService.GetUniqueFloorCount | FireAlarmBot/FloorService.cs:41-44 | the number of different floors logged, the length of the unique floors, at most the number of checks |
| RangedFloorService.FloorService.GetUncheckedFloors | FireAlarmBot/FloorService.cs:47-52 | strictly ascending, exactly the floors 2 to 25 not logged; under the invariant its length and the unique floors' add up to 24 |
| RangedFloorService.FloorService.GetMostCheckedFloor | FireAlarmBot/FloorService.cs:54-60 | 0 on an empty log; otherwise a logged floor of maximal count, first logged among floors of equal count |
| RangedFloorService.FloorService.GetLastCheckedFloor | FireAlarmBot/FloorService.cs:62-65 | the last logged floor, or 0 on an empty log |
| RangedFloorService.FloorService.GetCheckedPercentage | FireAlarmBot/FloorService.cs:67-71 | 100 times the unique count over 24: never negative, and under the invariant at most 100, and 100 exactly when no floor is unchecked |
| RangedFloorService.FloorService.ClearLogs | FireAlarmBot/FloorService.cs:30-34 | the log is empty, both counts are 0 and every floor from 2 to 25 is unchecked |
| RangedFloorService.FloorService.AdvanceClock | FireAlarmBot/FloorService.cs:12-13 | the log is cleared exactly when the running timer elapses in the time passed, so always when an hour passes; a stopped timer never clears |
| RangedFloorService.LifeCycleScenario | FireAlarmBot/FloorService.cs:12-22 | a rejected floor leaves the tracker idle with its timer stopped; the first accepted floor arms it; an idle hour clears the log and the timer keeps running |
| RangedFloorService.StatisticsScenario | FireAlarmBot/FloorService.cs:16-71 | after floors 5, 5 and 7: unique floors 5 and 7, three checks, 5 most checked, 7 last, 2 of 24 floors checked |
| RangedFloorService.ExampleLogStatistics | FireAlarmBot/FloorService.cs:25-65 | the queries on the log 5, 5, 7 |
| RangedFloorService.ExampleUniqueFloors | FireAlarmBot/FloorService.cs:25-28 | the log 5, 5, 7 has the unique floors 5 and 7 |
| RangedFloorService.ExampleMostChecked | FireAlarmBot/FloorService.cs:54-60 | in the log 5, 5, 7, floor 5 is checked most often |
| OriginalFloorService.PercentageAsWritten | FloorService.cs:51-55 | the integer `uniqueFloors / 100 / 25` is 0 exactly when fewer than 2500 floors are unique |
| OriginalFloorService.CheckedPercentage | FloorService.cs:51-55 | the intended percentage of 25 floors: never negative, at most 100 for at most 25 floors, 100 exactly for 25, positive once a floor is logged |
| OriginalFloorService.CheckedPercentageStep | FloorService.cs:51-55 | each further unique floor adds 4 points to the intended percentage |
| OriginalFloorService.PercentageAsWrittenIsAlwaysZero | FloorService.cs:53-54 | for every count up to 25 the integer percentage is 0, below the intended one once a floor is logged; 5 floors give 0 instead of 20 |
| OriginalFloorService.FloorService.constructor | FloorService.cs:8-11 | an empty log at time 0, from which the hourly timer counts |
| OriginalFloorService.FloorService.AddFloor | FloorService.cs:13-16 | any floor, 0 and negative ones included, is appended, and it becomes the last checked floor |
| OriginalFloorService.FloorService.GetUniqueFloors | FloorService.cs:18-21 | strictly ascending, exactly the logged floors |
| OriginalFloorService.FloorService.ClearLogs | FloorService.cs:23-26 | the log is empty and both counts are 0 |
| OriginalFloorService.FloorService.GetTotalFloorsChecked | FloorService.cs:28-31 | the number of checks, repeats included |
| OriginalFloorService.FloorService.GetUniqueFloorCount | FloorService.cs:33-36 | the number of different floors logged, the length of the unique floors, at most the number of checks |
| OriginalFloorService.FloorService.GetMostCheckedFloor | FloorService.cs:38-44 | 0 on an empty log; otherwise a logged floor of maximal count, first logged among floors of equal count |
| OriginalFloorService.FloorService.GetLastCheckedFloor | FloorService.cs:46-49 | the last logged floor, or 0 on an empty log, the same as for a logged floor 0 |
| OriginalFloorService.FloorService.GetCheckedPercentage | FloorService.cs:51-55 | the percentage as written: 0 unless 2500 or more floors are unique |
| OriginalFloorService.FloorService.AdvanceClock | FloorService.cs:10 | the log is cleared exactly when a whole hour since construction falls in the time passed, so always when an hour passes |
| OriginalFloorService.AnHourHoldsACallback | FloorService.cs:10 | any stretch of an hour or more holds a callback time of the hourly timer |
| OriginalFloorService.NoDebounceScenario | FloorService.cs:10-16 | a floor added at minute 59 is gone at minute 60: adding floors does not postpone the clear |

## Left out

- Concurrency: the `lock` around the log, the commented-out snapshot lock, and LINQ results built inside the lock that are enumerated lazily outside it. Every operation is modelled as one sequential step.
- Logging: the `ILogger` calls, and the `userId` argument of `AddCheckedFloor`, which is only logged.
- The Telegram transport, `BotService`, `CommandService` and the command handlers: they are glue around message sending. Their own report parsing differs from `AddCheckedFloor` in two ways, neither modelled:
  - `BotService.cs:60` uses `int.Parse`, which throws on a bad list piece;
  - `FireAlarmBot/BotService.cs:65` sends no reply for an empty list.
- Hosting and configuration in both `Program.cs` files. The bot token of `BotOptions`.
- The message texts. `AddCheckedFloor` returns the parsed request that its confirmation echoes, or an `InputError` for each `ArgumentException`. The statistics list fields are `FloorListing` values, not comma-joined strings; `FloorsText` gives the joined form where it is proved.
- Floating point: the `float` and `double` percentages are stated over `real`, and the two-decimal formatting is not modelled.
- TryParseInt: only the default decimal grammar is modelled: ASCII white space (tab to carriage return, and space) around an optional sign and digits, in the 32-bit range. Culture-specific signs and trailing null characters are not modelled. `Trim` and `IsBlank` use the full `Char.IsWhiteSpace` set.
- ConfiguredFloorService.FloorService.AddFloorRange: does not model the 32-bit wrap-around of the loop counter when `end` is `int.MaxValue`. The source then loops without end; the model stops after `end`.
- Invalid options: options with `MinFloor > MaxFloor`, or with a non-positive interval, are excluded rather than modelled. With `MinFloor == MaxFloor + 1` the source admits no floor, `Enumerable.Range(MinFloor, 0)` is empty, and the percentage divides by zero, giving NaN or infinity. With `MinFloor` further above, `Enumerable.Range` throws. `LogsClearInterval` is a `TimeSpan`, and the model takes it as a `nat` of whole milliseconds without an upper bound. `System.Timers.Timer` rounds its interval up to whole milliseconds and throws from its constructor when the result is not positive or exceeds `int.MaxValue` milliseconds. Overflow of `MaxFloor - MinFloor + 1` is not modelled either.
- The timer threads: time passes only through `AdvanceClock`. Several `Elapsed` events during one `AdvanceClock` clear the log once, which is the same state.
- Timers.Advance: the contract states only a bound on the next due time of an elapsed timer, within one interval after `upTo`. The body computes the exact cadence.
- Task wrapping: the `Async` queries are plain functions.

## Findings

| source | as written | input that shows it | evidently intended | confidence | as-written member | corrected member |
|---|---|---|---|---|---|---|
| FireAlarmBot/Services/FloorService.cs:109 | `uncheckedFloors` is filled from `GetUniqueFloorsAsync()`, so the `UncheckedFloors` field repeats the checked floors | default options, floor 5 checked: `UncheckedFloors` lists 5 | `GetUncheckedFloorsAsync()`, the configured floors not yet checked | high, not executed | ConfiguredFloorService.UncheckedFieldRepeatsCheckedFloors | ConfiguredFloorService.StatisticsPartitionFloors |
| FloorService.cs:54 | `uniqueFloors / 100 / 25` in integer arithmetic | 5 unique floors: 0 instead of 20 | `100 * uniqueFloors / 25`, the share of 25 floors in percent | high, not executed | OriginalFloorService.PercentageAsWrittenIsAlwaysZero | OriginalFloorService.CheckedPercentage |

The classes keep the source's behaviour, so their contracts describe the code as written:
- `ConfiguredFloorService.FloorService.GetStatisticsAsync` returns `StatisticsAsWritten`.
- `OriginalFloorService.FloorService.GetCheckedPercentage` returns `PercentageAsWritten`.

The corrected definitions, `Statistics` and `CheckedPercentage`, stand beside them with the intended properties proved.
