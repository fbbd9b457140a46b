/** The class Malenki\TicTacTic: a registry of named stopwatch timers.

    The clock is not read here: `start` and `finish` take the clock reading
    `now` as an argument. Exceptions become an Outcome or a Result. */
module Malenki {
  import opened Timers

  class TicTacTic {
    /** `arr_timers`: the timers in the order they were started. */
    var timers: seq<Timer>

    /** A PHP array never holds a key twice. */
    ghost predicate Valid()
      reads this
    {
      UniqueNames(timers)
    }

    /** The timers as a dictionary from name to stored value. */
    ghost function Map(): (m: map<string, real>)
      reads this
    {
      ToMap(timers)
    }

    constructor ()
      ensures Valid() && timers == [] && Map() == map[]
    {
      timers := [];
    }

    /** `has`: whether a timer of that name was started. */
    function Has(name: string): (r: bool)
      reads this
      ensures r <==> name in Map()
    {
      Lookup(timers, name).Some?
    }

    /** `count`: the number of timers, running or finished. */
    function Count(): (r: nat)
      reads this
      requires Valid()
      ensures r == |Map()|
    {
      CountIsKeys(timers);
      |timers|
    }

    /** `start`: a new name gets minus the clock reading; a known name is
        refused and nothing changes. */
    method Start(name: string, now: real) returns (o: Outcome)
      requires Valid()
      modifies this
      ensures Valid()
      ensures timers == AfterStart(old(timers), name, now)
      ensures o == if name in old(Map()) then Fail(AlreadyDefined) else Pass
      ensures o.Fail? ==> timers == old(timers)
      ensures o.Pass? ==> timers == old(timers) + [Timer(name, -now)]
      ensures o.Pass? ==> Map() == old(Map())[name := -now] && Count() == old(Count()) + 1
    {
      if Has(name) {
        o := Fail(AlreadyDefined);
      } else {
        AssignKeepsUnique(timers, name, -now);
        AssignAbsent(timers, name, -now);
        timers := Assign(timers, name, -now);
        o := Pass;
      }
    }

    /** `finish`: the clock reading is added to the stored value of a known
        name; an unknown name is refused and nothing changes. A finished timer
        is not refused: the reading is added once more. */
    method Finish(name: string, now: real) returns (o: Outcome)
      requires Valid()
      modifies this
      ensures Valid()
      ensures timers == AfterFinish(old(timers), name, now)
      ensures o == if name in old(Map()) then Pass else Fail(NotDefined)
      ensures o.Fail? ==> timers == old(timers)
      ensures o.Pass? ==> Map() == old(Map())[name := old(Map())[name] + now]
      ensures Map().Keys == old(Map()).Keys && Count() == old(Count())
    {
      if Has(name) {
        var v := Lookup(timers, name).value;
        AssignKeepsUnique(timers, name, v + now);
        timers := Assign(timers, name, v + now);
        o := Pass;
      } else {
        o := Fail(NotDefined);
      }
    }

    /** `done`: whether the stored value is not negative, that is, whether the
        timer was finished. */
    function Done(name: string): (r: Result<bool>)
      reads this
      ensures r == if name in Map() then Ok(Map()[name] >= 0.0) else Err(NotDefined)
    {
      if !Has(name) then Err(NotDefined)
      else Ok(Lookup(timers, name).value >= 0.0)
    }

    /** `get`: the stored value, negative while the timer still runs. */
    function Get(name: string): (r: Result<real>)
      reads this
      ensures r == if name in Map() then Ok(Map()[name]) else Err(NotDefined)
    {
      if !Has(name) then Err(NotDefined)
      else Ok(Lookup(timers, name).value)
    }

    /** `getAll`: the finished timers, with their values, in array order. */
    method GetAll() returns (out: seq<Timer>)
      requires Valid()
      ensures out == DoneTimers(timers)
      ensures forall t :: t in out <==> t in timers && t.value >= 0.0
      ensures UniqueNames(out)
      ensures ToMap(out) == FinishedPart(Map())
      ensures |out| == |FinishedPart(Map())| <= Count()
    {
      out := [];
      for i := 0 to |timers|
        invariant out == DoneTimers(timers[..i])
      {
        var t := timers[i];
        ToMapAt(timers, i);
        if Done(t.name) == Ok(true) {
          out := out + [t];
        }
        assert timers[..i + 1] == timers[..i] + [t];
        DoneTimersAppend(timers[..i], [t]);
        assert DoneTimers([t]) == (if t.value >= 0.0 then [t] else []) + [];
      }
      assert timers[..|timers|] == timers;
      DoneTimersMembers(timers);
      DoneTimersMap(timers);
      DoneTimersUnique(timers);
      CountIsKeys(out);
    }
  }

  /** A timer started at t0 and finished at t1 >= t0, with positive clock
      readings: `between` is what `done` reports right after the start
      (still running), and afterwards the timer is done with the elapsed time. */
  method StartThenFinishOn(r: TicTacTic, name: string, t0: real, t1: real)
    returns (ghost between: Result<bool>)
    requires r.Valid() && !r.Has(name)
    requires 0.0 < t0 <= t1
    modifies r
    ensures between == Ok(false)
    ensures r.Valid() && r.Has(name) && r.Count() == old(r.Count()) + 1
    ensures r.Done(name) == Ok(true) && r.Get(name) == Ok(t1 - t0)
  {
    var started := r.Start(name, t0);
    assert started == Pass;
    between := r.Done(name);
    var finished := r.Finish(name, t1);
    assert finished == Pass;
  }
}
