/**
 The second floor tracker (FireAlarmBot/FloorService.cs): floors 2 to 25 hard-coded, an
 idle timer that is created stopped and restarted by every accepted floor, and the
 individual statistics queries.
 */
module RangedFloorService {
  import opened FloorLog
  import Timers

  /** The lowest and highest floor the building has and the tracker records. */
  const MinFloor: int := 2
  const MaxFloor: int := 25
  /** `Enumerable.Range(2, 24)`: the number of floors from 2 to 25. */
  const FloorCount: nat := 24

  /** The range check of `AddFloor`: floors up to 1 and above 25 are ignored. */
  predicate Accepted(floor: int) {
    !(floor <= 1 || floor > 25)
  }

  /** The accepted floors are exactly those from `MinFloor` to `MaxFloor`. */
  lemma AcceptedIsFloorRange(floor: int)
    ensures Accepted(floor) <==> MinFloor <= floor <= MaxFloor
    ensures Accepted(floor) <==> floor in Range(MinFloor, FloorCount)
  {
  }

  /** The tracker; its clock stands for the time the timer thread sees. */
  class FloorService {
    var log: seq<int>
    var timer: Timers.ElapsedTimer
    var clock: int

    /**
     Every logged floor is one of 2 to 25; the idle timer, when running, is due within the
     hour; and it is running whenever something is logged.
     */
    ghost predicate Valid()
      reads this
    {
      && (forall x :: x in log ==> MinFloor <= x <= MaxFloor)
      && Timers.Armed(timer, clock, Timers.Hour)
      && (log != [] ==> timer.Running?)
    }

    /** The constructor creates the timer but does not start it. */
    constructor ()
      ensures Valid()
      ensures log == [] && timer == Timers.Stopped && clock == 0
    {
      log := [];
      timer := Timers.Stopped;
      clock := 0;
    }

    /**
     A floor outside 2 to 25 is ignored and the timer left as it is; any other is
     appended to the log and the timer is stopped and started again.
     */
    method AddFloor(floor: int)
      requires Valid()
      modifies this
      ensures Valid() && clock == old(clock)
      ensures Accepted(floor) ==>
        log == old(log) + [floor] && timer == Timers.Restart(old(timer), clock, Timers.Hour)
      ensures !Accepted(floor) ==> log == old(log) && timer == old(timer)
    {
      if floor <= 1 || floor > 25 {
        return;
      }
      log := log + [floor];
      timer := Timers.Stop(timer);
      timer := Timers.Start(timer, clock, Timers.Hour);
    }

    /** `Distinct().OrderBy(x => x)` of the log: each logged floor once, ascending. */
    function GetUniqueFloors(): (floors: seq<int>)
      reads this
      ensures StrictlyAscending(floors)
      ensures forall x :: x in floors <==> x in log
    {
      DistinctAscending(log)
    }

    /** `Count`: every check, repeated floors included. */
    function GetTotalFloorsChecked(): (n: nat)
      reads this
      ensures n == |log|
    {
      |log|
    }

    /** `Distinct().Count()`: the number of different floors logged. */
    function GetUniqueFloorCount(): (n: nat)
      reads this
      ensures n == |Elements(log)| == |GetUniqueFloors()|
      ensures n <= GetTotalFloorsChecked()
    {
      UniqueCountIsDistinctLength(log);
      |Distinct(log)|
    }

    /**
     `Enumerable.Range(2, 24).Except(GetUniqueFloors())`: the floors from 2 to 25 not
     logged, ascending. With the invariant, they and the unique floors together have one
     entry per floor.
     */
    function GetUncheckedFloors(): (floors: seq<int>)
      reads this
      ensures StrictlyAscending(floors)
      ensures forall x :: x in floors <==> MinFloor <= x <= MaxFloor && x !in log
      ensures Valid() ==> |GetUniqueFloors()| + |floors| == FloorCount
    {
      var all := Range(MinFloor, FloorCount);
      ExceptKeepsAscending(all, GetUniqueFloors());
      CheckedAndUncheckedPartition(MinFloor, FloorCount, log, GetUniqueFloors());
      Except(all, GetUniqueFloors())
    }

    /**
     The `GroupBy`/`OrderByDescending`/`FirstOrDefault` query: a floor checked most
     often, the one checked first among equally frequent floors, or 0 for an empty log.
     */
    function GetMostCheckedFloor(): (floor: int)
      reads this
      ensures log == [] ==> floor == 0
      ensures log != [] ==> floor in log
      ensures forall x :: x in log ==> Occurrences(log, x) <= Occurrences(log, floor)
      ensures forall x :: x in log && Occurrences(log, x) == Occurrences(log, floor) ==>
        FirstIndex(log, floor) <= FirstIndex(log, x)
    {
      MostChecked(log)
    }

    /** `LastOrDefault`: the floor checked last, or 0 for an empty log. */
    function GetLastCheckedFloor(): (floor: int)
      reads this
      ensures log == [] ==> floor == 0
      ensures log != [] ==> floor == log[|log| - 1]
    {
      LastOrDefault(log)
    }

    /** The unique floors as a share of the 24 floors, in percent. */
    function GetCheckedPercentage(): (p: real)
      reads this
      ensures p == 100.0 * GetUniqueFloorCount() as real / FloorCount as real
      ensures p >= 0.0
      ensures Valid() ==> p <= 100.0
      ensures Valid() ==> (p == 100.0 <==> GetUncheckedFloors() == [])
    {
      var unique := GetUniqueFloorCount();
      assert Valid() ==> unique + |GetUncheckedFloors()| == FloorCount;
      unique as real / 24.0 * 100.0
    }

    /** The timer's callback: empties the log, after which every floor is unchecked. */
    method ClearLogs()
      requires Valid()
      modifies this
      ensures Valid()
      ensures log == [] && timer == old(timer) && clock == old(clock)
      ensures GetTotalFloorsChecked() == 0 && GetUniqueFloorCount() == 0
      ensures GetUncheckedFloors() == Range(MinFloor, FloorCount)
    {
      log := [];
      AscendingIsDeterminedByElements(GetUncheckedFloors(), Range(MinFloor, FloorCount));
    }

    /**
     Lets `dt` milliseconds pass. If the running timer elapses meanwhile, its callback
     clears the log and the timer, resetting itself, stays running; a stopped timer never
     elapses. A whole idle hour without an accepted floor therefore always ends with an
     empty log.
     */
    method AdvanceClock(dt: nat)
      requires Valid()
      modifies this
      ensures Valid()
      ensures clock == old(clock) + dt
      ensures timer == Timers.Advance(old(timer), clock, Timers.Hour)
      ensures log == if Timers.Elapses(old(timer), clock) then [] else old(log)
      ensures dt >= Timers.Hour ==> log == []
    {
      var upTo := clock + dt;
      if Timers.Elapses(timer, upTo) {
        ClearLogs();
      }
      Timers.AdvanceKeepsArmed(timer, clock, upTo, Timers.Hour);
      timer := Timers.Advance(timer, upTo, Timers.Hour);
      clock := upTo;
    }
  }

  /**
   The tracker's life cycle: empty with the timer stopped until the first accepted floor,
   which arms the timer; an hour without further floors clears the log and leaves the
   timer running.
   */
  method LifeCycleScenario() returns (first: seq<int>, idle: bool, armed: bool, cleared: seq<int>, stillRunning: bool)
    ensures first == [] && idle
    ensures armed
    ensures cleared == [] && stillRunning
  {
    var service := new FloorService();
    service.AddFloor(1);
    first, idle := service.log, service.timer == Timers.Stopped;
    service.AddFloor(5);
    armed := service.timer == Timers.Running(Timers.Hour);
    service.AdvanceClock(Timers.Hour);
    cleared, stillRunning := service.log, service.timer.Running?;
  }

  /**
   The example statistics: after floors 5, 5 and 7 the unique floors are 5 and 7, there
   were three checks, 5 is the most checked and 7 the last, and 2 of 24 floors are checked.
   */
  method StatisticsScenario() returns (unique: seq<int>, total: nat, most: int, last: int, percentage: real)
    ensures unique == [5, 7] && total == 3 && most == 5 && last == 7
    ensures percentage == 200.0 / 24.0
  {
    var service := new FloorService();
    service.AddFloor(5);
    service.AddFloor(5);
    service.AddFloor(7);
    assert service.log == [5, 5, 7];
    ExampleLogStatistics();
    unique := service.GetUniqueFloors();
    total := service.GetTotalFloorsChecked();
    most := service.GetMostCheckedFloor();
    last := service.GetLastCheckedFloor();
    percentage := service.GetCheckedPercentage();
  }

  /** The queries on the log 5, 5, 7. */
  lemma ExampleLogStatistics()
    ensures DistinctAscending([5, 5, 7]) == [5, 7]
    ensures |Distinct([5, 5, 7])| == 2
    ensures MostChecked([5, 5, 7]) == 5
    ensures LastOrDefault([5, 5, 7]) == 7
  {
    ExampleUniqueFloors();
    ExampleMostChecked();
  }

  /** The log 5, 5, 7 has the unique floors 5 and 7. */
  lemma ExampleUniqueFloors()
    ensures DistinctAscending([5, 5, 7]) == [5, 7]
    ensures |Distinct([5, 5, 7])| == 2
  {
    AscendingIsDeterminedByElements(DistinctAscending([5, 5, 7]), [5, 7]);
    UniqueCountIsDistinctLength([5, 5, 7]);
  }

  /** In the log 5, 5, 7, floor 5 is checked most often. */
  lemma ExampleMostChecked()
    ensures MostChecked([5, 5, 7]) == 5
  {
    var log := [5, 5, 7];
    assert Occurrences(log, 7) == 1 && Occurrences(log, 5) == 2;
    assert FirstIndex(log, 5) == 0;
    MostCheckedIsUnique(log, 5);
  }
}
