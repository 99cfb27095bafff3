/**
 The first floor tracker (FloorService.cs at the top of the repository): no range check,
 a clearing timer with a fixed one-hour period from construction, and an integer
 percentage.
 */
module OriginalFloorService {
  import opened FloorLog
  import Timers

  /** The number of floors the percentage is evidently meant to be taken of. */
  const FloorCount: nat := 25

  /** `uniqueFloors / 100 / 25` in C# `int` arithmetic, as written. */
  function PercentageAsWritten(unique: nat): (p: nat)
    ensures p == 0 <==> unique < 2500
    ensures p * 2500 <= unique
  {
    unique / 100 / 25
  }

  /** The unique floors as a share of the 25 floors, in percent. */
  function CheckedPercentage(unique: nat): (p: real)
    ensures p >= 0.0
    ensures unique <= FloorCount ==> p <= 100.0
    ensures p == 100.0 <==> unique == FloorCount
    ensures unique > 0 ==> p > 0.0
  {
    100.0 * unique as real / FloorCount as real
  }

  /** Each further unique floor raises the intended percentage by 4 points. */
  lemma CheckedPercentageStep(unique: nat)
    ensures CheckedPercentage(unique + 1) == CheckedPercentage(unique) + 4.0
  {
  }

  /**
   The integer percentage is 0 for every log a building of 25 floors can produce: with
   5 unique floors it reports 0 where 20 percent were checked.
   */
  lemma PercentageAsWrittenIsAlwaysZero(unique: nat)
    requires unique <= FloorCount
    ensures PercentageAsWritten(unique) == 0
    ensures unique > 0 ==> CheckedPercentage(unique) > PercentageAsWritten(unique) as real
    ensures PercentageAsWritten(5) == 0 && CheckedPercentage(5) == 20.0
  {
  }

  /** The tracker; its clock is the time since construction, which the timer's period counts from. */
  class FloorService {
    var log: seq<int>
    var clock: nat

    /** The constructor creates the timer, which runs its first callback an hour later. */
    constructor ()
      ensures log == [] && clock == 0
    {
      log := [];
      clock := 0;
    }

    /** Any floor, 0 and negative ones included, is appended; the timer is not touched. */
    method AddFloor(floor: int)
      modifies this
      ensures log == old(log) + [floor] && clock == old(clock)
      ensures GetLastCheckedFloor() == floor
    {
      log := log + [floor];
      LastAfterAppend(old(log), floor);
    }

    /** `Distinct().OrderBy(x => x)` of the log: each logged floor once, ascending. */
    function GetUniqueFloors(): (floors: seq<int>)
      reads this
      ensures StrictlyAscending(floors)
      ensures forall x :: x in floors <==> x in log
    {
      DistinctAscending(log)
    }

    /** The timer's callback: empties the log. */
    method ClearLogs()
      modifies this
      ensures log == [] && clock == old(clock)
      ensures GetTotalFloorsChecked() == 0 && GetUniqueFloorCount() == 0
    {
      log := [];
    }

    /** `Count`: every check, repeated floors included. */
    function GetTotalFloorsChecked(): (n: nat)
      reads this
      ensures n == |log|
    {
      |log|
    }

    /** `Distinct().Count()`: the number of different floors logged. */
    function GetUniqueFloorCount(): (n: nat)
      reads this
      ensures n == |Elements(log)| == |GetUniqueFloors()|
      ensures n <= GetTotalFloorsChecked()
    {
      UniqueCountIsDistinctLength(log);
      |Distinct(log)|
    }

    /**
     The `GroupBy`/`OrderByDescending`/`FirstOrDefault` query: a floor checked most
     often, the one checked first among equally frequent floors, or 0 for an empty log.
     */
    function GetMostCheckedFloor(): (floor: int)
      reads this
      ensures log == [] ==> floor == 0
      ensures log != [] ==> floor in log
      ensures forall x :: x in log ==> Occurrences(log, x) <= Occurrences(log, floor)
      ensures forall x :: x in log && Occurrences(log, x) == Occurrences(log, floor) ==>
        FirstIndex(log, floor) <= FirstIndex(log, x)
    {
      MostChecked(log)
    }

    /**
     `LastOrDefault`: the floor checked last, or 0 for an empty log, which cannot be told
     apart from a logged floor 0.
     */
    function GetLastCheckedFloor(): (floor: int)
      reads this
      ensures log == [] ==> floor == 0
      ensures log != [] ==> floor == log[|log| - 1]
    {
      LastOrDefault(log)
    }

    /** `GetCheckedPercentage` as written: 0 unless at least 2500 different floors were logged. */
    function GetCheckedPercentage(): (p: nat)
      reads this
      ensures p == PercentageAsWritten(GetUniqueFloorCount())
      ensures p == 0 <==> GetUniqueFloorCount() < 2500
    {
      PercentageAsWritten(GetUniqueFloorCount())
    }

    /**
     Lets `dt` milliseconds pass. The fixed-period timer runs its callback at every whole
     hour since construction, however recently a floor was added, so the log is cleared
     exactly when such an hour falls in the time that passed.
     */
    method AdvanceClock(dt: nat)
      modifies this
      ensures clock == old(clock) + dt
      ensures log == if Timers.PeriodElapses(old(clock), clock, Timers.Hour) then [] else old(log)
      ensures (exists k: nat :: 1 <= k && old(clock) < Timers.CallbackTime(k, Timers.Hour) <= clock) ==> log == []
      ensures dt >= Timers.Hour ==> log == []
    {
      var from := clock;
      clock := clock + dt;
      Timers.PeriodElapsesAtCallbackTimes(from, clock, Timers.Hour);
      if dt >= Timers.Hour {
        AnHourHoldsACallback(from, clock);
      }
      if Timers.PeriodElapses(from, clock, Timers.Hour) {
        ClearLogs();
      }
    }
  }

  /** A stretch of at least an hour always holds a callback time of the hourly timer. */
  lemma AnHourHoldsACallback(from: nat, to: nat)
    requires to >= from + Timers.Hour
    ensures Timers.PeriodElapses(from, to, Timers.Hour)
  {
    var q := from / Timers.Hour;
    assert from < (q + 1) * Timers.Hour <= from + Timers.Hour by {
      Timers.NextCadencePoint(from, Timers.Hour);
    }
    Timers.PeriodElapsesAtCallbackTimes(from, to, Timers.Hour);
    assert Timers.CallbackTime(q + 1, Timers.Hour) == (q + 1) * Timers.Hour;
  }

  /**
   Adding a floor does not postpone the clearing: a floor added one minute before the
   first whole hour is gone a minute later.
   */
  method NoDebounceScenario() returns (beforeHour: seq<int>, afterHour: seq<int>)
    ensures beforeHour == [5] && afterHour == []
  {
    var minute := 60_000;
    var service := new FloorService();
    service.AdvanceClock(59 * minute);
    service.AddFloor(5);
    beforeHour := service.log;
    service.AdvanceClock(minute);
    afterHour := service.log;
  }
}
