/**
 The newest floor tracker (FireAlarmBot/Services/FloorService.cs): configurable floor
 bounds and clearing interval, an idle timer started at construction and restarted by
 every accepted floor, the text parser `AddCheckedFloor`, and a statistics snapshot.
 */
module ConfiguredFloorService {
  import opened Wrappers
  import opened FloorLog
  import opened FloorInput
  import Timers

  /** `BotOptions` without the bot token: the floor bounds and the clearing interval in milliseconds. */
  datatype BotOptions = BotOptions(minFloor: int, maxFloor: int, logsClearInterval: nat)

  /** Options the service can run with: a non-empty floor range and a positive interval. */
  type ValidOptions = o: BotOptions | o.minFloor <= o.maxFloor && o.logsClearInterval > 0
    witness BotOptions(2, 25, 3_600_000)

  /** The defaults of `BotOptions`: floors 2 to 25, cleared after an idle hour. */
  const DefaultOptions: ValidOptions := BotOptions(2, 25, Timers.Hour)

  /** The number of floors in the configured range. */
  function FloorCount(o: ValidOptions): nat {
    o.maxFloor - o.minFloor + 1
  }

  /** The range check of `AddFloor`. */
  predicate InRange(o: ValidOptions, floor: int) {
    !(floor < o.minFloor || floor > o.maxFloor)
  }

  /** The floors of `floors` that `AddFloor` records, in order; the others it ignores. */
  function Admitted(o: ValidOptions, floors: seq<int>): seq<int> {
    if floors == [] then []
    else Admitted(o, floors[..|floors| - 1]) + (if InRange(o, floors[|floors| - 1]) then [floors[|floors| - 1]] else [])
  }

  /** `AddFloor` on each of `floors` logs the ones in range, and no more of them than there are. */
  lemma {:induction false} AdmittedFloors(o: ValidOptions, floors: seq<int>)
    ensures |Admitted(o, floors)| <= |floors|
    ensures forall x :: x in Admitted(o, floors) <==> x in floors && o.minFloor <= x <= o.maxFloor
  {
    if floors != [] {
      AdmittedFloors(o, floors[..|floors| - 1]);
      SplitLast(floors);
    }
  }

  /** Appending a floor to the requested floors appends it to the admitted ones if it is in range. */
  lemma AdmittedSnoc(o: ValidOptions, floors: seq<int>, f: int)
    ensures InRange(o, f) ==> Admitted(o, floors + [f]) == Admitted(o, floors) + [f]
    ensures !InRange(o, f) ==> Admitted(o, floors + [f]) == Admitted(o, floors)
  {
    assert (floors + [f])[..|floors|] == floors;
    assert Admitted(o, floors) + [] == Admitted(o, floors);
  }

  /** Extending a range by the next floor extends the admitted floors by it if it is in range. */
  lemma AdmittedRangeStep(o: ValidOptions, start: int, count: nat)
    ensures InRange(o, start + count) ==> Admitted(o, Range(start, count + 1)) == Admitted(o, Range(start, count)) + [start + count]
    ensures !InRange(o, start + count) ==> Admitted(o, Range(start, count + 1)) == Admitted(o, Range(start, count))
  {
    RangeSnoc(start, count);
    AdmittedSnoc(o, Range(start, count), start + count);
  }

  /** The floors `AddCheckedFloor` calls `AddFloor` on for a parsed request, in order. */
  function Requested(request: FloorRequest): (floors: seq<int>)
    ensures request.FloorRange? ==>
      && |floors| == (if request.end < request.start then 0 else request.end - request.start + 1)
      && (forall i :: 0 <= i < |floors| ==> floors[i] == request.start + i)
      && (forall x :: x in floors <==> request.start <= x <= request.end)
    ensures request.FloorList? ==> floors == request.floors
    ensures request.SingleFloor? ==> floors == [request.floor]
  {
    match request
    case FloorRange(start, end) => if start <= end then Range(start, end - start + 1) else []
    case FloorList(floors) => floors
    case SingleFloor(floor) => [floor]
  }

  /**
   `AddCheckedFloor` never asks for a floor below 0, so it records none: with a negative
   `MinFloor`, the basement floors can only be recorded through `AddFloor`.
   */
  lemma CheckedFloorsAreUnsigned(o: ValidOptions, input: string)
    requires Parse(input).Success?
    ensures forall x :: x in Requested(Parse(input).value) ==> x >= 0
    ensures forall x :: x in Admitted(o, Requested(Parse(input).value)) ==> x >= 0
  {
    var request := Parse(input).value;
    ParsedFloorsAreUnsigned(input);
    AdmittedFloors(o, Requested(request));
  }

  /** A list of floors in a snapshot: the floors, or the sentinel text when there are none. */
  datatype FloorListing = NoSuchFloors | Listed(floors: seq<int>)

  function Listing(floors: seq<int>): (l: FloorListing)
    ensures l == NoSuchFloors <==> floors == []
    ensures l.Listed? ==> l.floors == floors
  {
    if floors == [] then NoSuchFloors else Listed(floors)
  }

  /** `FloorStatistics`, with the two floor lists as listings and the percentage as a real. */
  datatype FloorStatistics = FloorStatistics(
    checkedFloors: FloorListing,
    uncheckedFloors: FloorListing,
    totalChecks: nat,
    uniqueFloors: nat,
    mostCheckedFloor: int,
    lastCheckedFloor: int,
    checkedPercentage: real)

  /** The share of the configured floors that were checked, in percent. */
  function CheckedPercentage(o: ValidOptions, unique: nat): (p: real)
    ensures p >= 0.0
    ensures unique <= FloorCount(o) ==> p <= 100.0
    ensures p == 100.0 <==> unique == FloorCount(o)
  {
    var n := FloorCount(o) as real;
    var share := unique as real / n;
    assert n > 0.0;
    assert share * n == unique as real;
    assert unique <= FloorCount(o) ==> share <= 1.0;
    assert share == 1.0 <==> unique == FloorCount(o) by {
      if share == 1.0 {
        assert unique as real == n;
      }
      if unique == FloorCount(o) {
        assert (share - 1.0) * n == 0.0;
      }
    }
    assert share * 100.0 == 100.0 <==> share == 1.0;
    share * 100.0
  }

  /**
   `GetStatisticsAsync` as written: the `UncheckedFloors` field is filled from
   `GetUniqueFloorsAsync`, so it repeats the checked floors.
   */
  function StatisticsAsWritten(o: ValidOptions, log: seq<int>): (s: FloorStatistics)
    ensures s.totalChecks == |log|
    ensures s.uniqueFloors == |Elements(log)| <= s.totalChecks
    ensures s.checkedFloors == NoSuchFloors <==> log == []
    ensures s.checkedFloors.Listed? ==>
      StrictlyAscending(s.checkedFloors.floors) && forall x :: x in s.checkedFloors.floors <==> x in log
    ensures s.uncheckedFloors == s.checkedFloors
    ensures log == [] ==> s.mostCheckedFloor == 0 && s.lastCheckedFloor == 0
    ensures log != [] ==> s.mostCheckedFloor in log && s.lastCheckedFloor == log[|log| - 1]
    ensures s.mostCheckedFloor == MostChecked(log)
    ensures s.checkedPercentage == CheckedPercentage(o, s.uniqueFloors)
  {
    var unique := DistinctAscending(log);
    UniqueCountIsDistinctLength(log);
    FloorStatistics(
      checkedFloors := Listing(unique),
      uncheckedFloors := Listing(unique),
      totalChecks := |log|,
      uniqueFloors := |unique|,
      mostCheckedFloor := MostChecked(log),
      lastCheckedFloor := LastOrDefault(log),
      checkedPercentage := CheckedPercentage(o, |unique|))
  }

  /** The floors of the configured range that are not in the log, ascending. */
  function UncheckedFloors(o: ValidOptions, log: seq<int>): (floors: seq<int>)
    ensures StrictlyAscending(floors)
    ensures forall x :: x in floors <==> o.minFloor <= x <= o.maxFloor && x !in log
    ensures floors == [] <==> forall x :: o.minFloor <= x <= o.maxFloor ==> x in log
  {
    var all := Range(o.minFloor, FloorCount(o));
    ExceptKeepsAscending(all, Distinct(log));
    assert forall x :: o.minFloor <= x <= o.maxFloor ==> x in all;
    var floors := Except(all, Distinct(log));
    assert floors != [] ==> floors[0] in floors;
    floors
  }

  /** The statistics with `UncheckedFloors` listing the floors of the range that were not checked. */
  function Statistics(o: ValidOptions, log: seq<int>): (s: FloorStatistics)
    ensures s == StatisticsAsWritten(o, log).(uncheckedFloors := s.uncheckedFloors)
    ensures s.uncheckedFloors == NoSuchFloors <==> forall x :: o.minFloor <= x <= o.maxFloor ==> x in log
    ensures s.uncheckedFloors.Listed? ==> s.uncheckedFloors.floors == UncheckedFloors(o, log)
  {
    var unchecked := UncheckedFloors(o, log);
    var listing := Listing(unchecked);
    StatisticsAsWritten(o, log).(uncheckedFloors := listing)
  }

  /**
   The snapshot as written falls short of its partition promise: after floor 5 alone is
   checked with the default options, `UncheckedFloors` lists 5, a checked floor, instead
   of the 23 floors that are still unchecked.
   */
  lemma UncheckedFieldRepeatsCheckedFloors()
    ensures StatisticsAsWritten(DefaultOptions, [5]).uncheckedFloors == Listed([5])
    ensures Statistics(DefaultOptions, [5]).uncheckedFloors.Listed?
    ensures 5 !in Statistics(DefaultOptions, [5]).uncheckedFloors.floors
  {
    var s := StatisticsAsWritten(DefaultOptions, [5]);
    assert s.checkedFloors.floors == [5] by {
      AscendingIsDeterminedByElements(s.checkedFloors.floors, [5]);
    }
    assert 2 !in [5];
  }

  /**
   With every logged floor in range, the corrected snapshot partitions the range: each
   floor is listed as checked or as unchecked, never both, and the two lists together
   have one entry per floor.
   */
  lemma StatisticsPartitionFloors(o: ValidOptions, log: seq<int>)
    requires forall x :: x in log ==> o.minFloor <= x <= o.maxFloor
    ensures var s := Statistics(o, log);
      forall x :: o.minFloor <= x <= o.maxFloor <==> x in ListedFloors(s.checkedFloors) || x in ListedFloors(s.uncheckedFloors)
    ensures var s := Statistics(o, log);
      forall x :: !(x in ListedFloors(s.checkedFloors) && x in ListedFloors(s.uncheckedFloors))
    ensures var s := Statistics(o, log);
      |ListedFloors(s.checkedFloors)| + |ListedFloors(s.uncheckedFloors)| == FloorCount(o)
    ensures 0.0 <= Statistics(o, log).checkedPercentage <= 100.0
  {
    var unique := DistinctAscending(log);
    var unchecked := UncheckedFloors(o, log);
    CheckedAndUncheckedPartition(o.minFloor, FloorCount(o), log, Distinct(log));
    assert ListedFloors(Listing(unique)) == unique;
    assert ListedFloors(Listing(unchecked)) == unchecked;
    UniqueCountIsDistinctLength(log);
  }

  /** The floors of a listing; none for the sentinel. */
  function ListedFloors(l: FloorListing): seq<int> {
    if l.Listed? then l.floors else []
  }

  /** The tracker; its clock stands for the time the timer thread sees. */
  class FloorService {
    const options: ValidOptions
    var log: seq<int>
    var timer: Timers.ElapsedTimer
    var clock: int

    /** Every logged floor is in range, and the idle timer is running and due within one interval. */
    ghost predicate Valid()
      reads this
    {
      && (forall x :: x in log ==> options.minFloor <= x <= options.maxFloor)
      && timer.Running?
      && Timers.Armed(timer, clock, options.logsClearInterval)
    }

    /** The constructor starts the idle timer. */
    constructor (options: ValidOptions)
      ensures Valid()
      ensures this.options == options && log == [] && clock == 0
      ensures timer == Timers.Running(options.logsClearInterval)
    {
      this.options := options;
      log := [];
      clock := 0;
      timer := Timers.Start(Timers.Stopped, 0, options.logsClearInterval);
    }

    /**
     A floor outside the configured range is ignored; any other is appended to the log
     and the idle timer is stopped and started again.
     */
    method AddFloor(floor: int)
      requires Valid()
      modifies this
      ensures Valid() && clock == old(clock)
      ensures InRange(options, floor) ==>
        log == old(log) + [floor] && timer == Timers.Restart(old(timer), clock, options.logsClearInterval)
      ensures !InRange(options, floor) ==> log == old(log) && timer == old(timer)
    {
      if floor < options.minFloor || floor > options.maxFloor {
        return;
      }
      log := log + [floor];
      timer := Timers.Stop(timer);
      timer := Timers.Start(timer, clock, options.logsClearInterval);
    }

    /**
     Parses a report and calls `AddFloor` on each floor it names, in order; the result is
     the parsed request the confirmation message echoes, or the error the service throws,
     in which case nothing was added.
     */
    method AddCheckedFloor(input: string) returns (r: Result<FloorRequest, InputError>)
      requires Valid()
      modifies this
      ensures Valid() && clock == old(clock)
      ensures r == Parse(input)
      ensures r.Failure? ==> log == old(log) && timer == old(timer)
      ensures r.Success? ==> log == old(log) + Admitted(options, Requested(r.value))
      ensures r.Success? ==> timer == IdleTimer(old(timer), clock, Admitted(options, Requested(r.value)))
    {
      r := Parse(input);
      if r.Failure? {
        return;
      }
      match r.value
      case FloorRange(start, end) =>
        AddFloorRange(start, end);
      case FloorList(floors) =>
        AddFloors(floors);
      case SingleFloor(floor) =>
        AddFloor(floor);
        assert [floor] == [] + [floor];
        AdmittedSnoc(options, [], floor);
    }

    /** The idle timer once `admitted` were added to the log, starting from timer `t`. */
    function IdleTimer(t: Timers.ElapsedTimer, now: int, admitted: seq<int>): Timers.ElapsedTimer {
      if admitted == [] then t else Timers.Running(now + options.logsClearInterval)
    }

    /** The loop of `AddCheckedFloor` for a range: `AddFloor` on `start`, `start + 1`, ..., `end`. */
    method AddFloorRange(start: int, end: int)
      requires Valid()
      modifies this
      ensures Valid() && clock == old(clock)
      ensures log == old(log) + Admitted(options, Requested(FloorRange(start, end)))
      ensures timer == IdleTimer(old(timer), clock, Admitted(options, Requested(FloorRange(start, end))))
    {
      if start <= end {
        for i := start to end + 1
          invariant Valid() && clock == old(clock)
          invariant log == old(log) + Admitted(options, Range(start, i - start))
          invariant timer == IdleTimer(old(timer), clock, Admitted(options, Range(start, i - start)))
        {
          AdmittedRangeStep(options, start, i - start);
          AddFloor(i);
        }
      }
    }

    /** The loop of `AddCheckedFloor` for a list: `AddFloor` on each floor in order. */
    method AddFloors(floors: seq<int>)
      requires Valid()
      modifies this
      ensures Valid() && clock == old(clock)
      ensures log == old(log) + Admitted(options, floors)
      ensures timer == IdleTimer(old(timer), clock, Admitted(options, floors))
    {
      for k := 0 to |floors|
        invariant Valid() && clock == old(clock)
        invariant log == old(log) + Admitted(options, floors[..k])
        invariant timer == IdleTimer(old(timer), clock, Admitted(options, floors[..k]))
      {
        AddFloor(floors[k]);
        assert floors[..k + 1] == floors[..k] + [floors[k]];
        AdmittedSnoc(options, floors[..k], floors[k]);
      }
      assert floors[..|floors|] == floors;
    }

    /** `Distinct().OrderBy(x => x)` of the log: each logged floor once, ascending. */
    function GetUniqueFloorsAsync(): (floors: seq<int>)
      reads this
      ensures StrictlyAscending(floors)
      ensures forall x :: x in floors <==> x in log
    {
      DistinctAscending(log)
    }

    /**
     `Enumerable.Range(MinFloor, MaxFloor - MinFloor + 1).Except(log.Distinct())`: the
     configured floors not in the log, ascending. With the invariant, they and the unique
     floors together have one entry per floor of the range.
     */
    function GetUncheckedFloorsAsync(): (floors: seq<int>)
      reads this
      ensures StrictlyAscending(floors)
      ensures forall x :: x in floors <==> options.minFloor <= x <= options.maxFloor && x !in log
      ensures Valid() ==> |GetUniqueFloorsAsync()| + |floors| == FloorCount(options)
    {
      CheckedAndUncheckedPartition(options.minFloor, FloorCount(options), log, Distinct(log));
      UncheckedFloors(options, log)
    }

    /** `GetStatisticsAsync`, as written (see `StatisticsAsWritten`). */
    function GetStatisticsAsync(): (s: FloorStatistics)
      reads this
      ensures s == StatisticsAsWritten(options, log)
      ensures Valid() ==> 0.0 <= s.checkedPercentage <= 100.0
    {
      CheckedAndUncheckedPartition(options.minFloor, FloorCount(options), log, Distinct(log));
      UniqueCountIsDistinctLength(log);
      StatisticsAsWritten(options, log)
    }

    /** The timer's callback: empties the log. */
    method ClearLogs()
      requires Valid()
      modifies this
      ensures Valid()
      ensures log == [] && timer == old(timer) && clock == old(clock)
    {
      log := [];
    }

    /**
     Lets `dt` milliseconds pass. If the idle timer elapses meanwhile, its callback clears
     the log and the timer, resetting itself, stays running. A whole idle interval without
     an accepted floor therefore always ends with an empty log.
     */
    method AdvanceClock(dt: nat)
      requires Valid()
      modifies this
      ensures Valid()
      ensures clock == old(clock) + dt
      ensures timer == Timers.Advance(old(timer), clock, options.logsClearInterval)
      ensures log == if Timers.Elapses(old(timer), clock) then [] else old(log)
      ensures dt >= options.logsClearInterval ==> log == []
    {
      var upTo := clock + dt;
      if Timers.Elapses(timer, upTo) {
        ClearLogs();
      }
      Timers.AdvanceKeepsArmed(timer, clock, upTo, options.logsClearInterval);
      timer := Timers.Advance(timer, upTo, options.logsClearInterval);
      clock := upTo;
    }
  }

  /**
   The idle timer is restarted by every accepted floor: with the default options, floors
   reported at minutes 50 and 100 are both still logged at minute 159, although the timer
   first started at minute 0, and the log is empty one hour after the last report.
   */
  method DebounceScenario() returns (beforeIdleHour: seq<int>, afterIdleHour: seq<int>)
    ensures beforeIdleHour == [5, 7]
    ensures afterIdleHour == []
  {
    var minute := 60_000;
    var service := new FloorService(DefaultOptions);
    service.AdvanceClock(50 * minute);
    service.AddFloor(5);
    service.AdvanceClock(50 * minute);
    service.AddFloor(7);
    service.AdvanceClock(59 * minute);
    beforeIdleHour := service.log;
    service.AdvanceClock(minute);
    afterIdleHour := service.log;
  }

  /**
   A range report is clipped to the configured floors: with the default options, `1-3`
   is the range from 1 to 3, and `AddCheckedFloor` logs floors 2 and 3 for it.
   */
  lemma RangeReportIsClipped()
    ensures Parse("1-3") == Success(FloorRange(1, 3))
    ensures Admitted(DefaultOptions, Requested(Parse("1-3").value)) == [2, 3]
  {
    ExampleRange();
    DefaultAdmitsTwoAndThree();
  }

  /** Of the floors 1 to 3, the default options admit 2 and 3. */
  lemma DefaultAdmitsTwoAndThree()
    ensures Admitted(DefaultOptions, Requested(FloorRange(1, 3))) == [2, 3]
  {
    assert Range(1, 3) == [1, 2, 3];
    AdmittedSnoc(DefaultOptions, [1, 2], 3);
    AdmittedSnoc(DefaultOptions, [1], 2);
    AdmittedSnoc(DefaultOptions, [], 1);
    assert [1, 2, 3] == [1, 2] + [3] && [1, 2] == [1] + [2] && [1] == [] + [1];
  }
}
