/** The timer array of TicTacTic, as values.

    PHP keeps the timers in an ordered array indexed by name. Here that array
    is a sequence of (name, value) entries in insertion order; ToMap gives the
    dictionary view of it. A stored value is minus the start time while the
    timer runs, and the elapsed time once it has been finished. */
module Timers {

  /** One entry of the array: a timer's name and its signed stored value. */
  datatype Timer = Timer(name: string, value: real)

  /** The two failures of the class: starting a name twice, and using a name
      that was never started. */
  datatype Error = AlreadyDefined | NotDefined

  /** What `start` and `finish` report instead of throwing. */
  datatype Outcome = Pass | Fail(error: Error)

  /** What `done` and `get` report instead of throwing. */
  datatype Result<T> = Ok(value: T) | Err(error: Error)

  datatype Option<T> = None | Some(value: T)

  /** The array as a dictionary. Should a name occur twice, its first entry
      wins, as a lookup finds it first. */
  ghost function ToMap(s: seq<Timer>): (m: map<string, real>)
    ensures forall i | 0 <= i < |s| :: s[i].name in m
  {
    if s == [] then map[] else ToMap(s[1..])[s[0].name := s[0].value]
  }

  /** The representation invariant of a PHP array: no name occurs twice. */
  ghost predicate UniqueNames(s: seq<Timer>) {
    forall i, j | 0 <= i < j < |s| :: s[i].name != s[j].name
  }

  /** Reading `$arr_timers[$name]`, None when the key does not exist. */
  function Lookup(s: seq<Timer>, name: string): (r: Option<real>)
    ensures r == if name in ToMap(s) then Some(ToMap(s)[name]) else None
  {
    if s == [] then None
    else if s[0].name == name then Some(s[0].value)
    else Lookup(s[1..], name)
  }

  /** Writing `$arr_timers[$name] = v`: the entry of an existing key is
      replaced where it stands, a new key is appended at the end. */
  function Assign(s: seq<Timer>, name: string, v: real): (r: seq<Timer>)
    ensures ToMap(r) == ToMap(s)[name := v]
  {
    if s == [] then [Timer(name, v)]
    else if s[0].name == name then
      assert ([Timer(name, v)] + s[1..])[1..] == s[1..];
      [Timer(name, v)] + s[1..]
    else
      var rest := Assign(s[1..], name, v);
      assert ([s[0]] + rest)[1..] == rest;
      [s[0]] + rest
  }

  /** The dictionary of the finished timers: the entries whose value is not
      negative. */
  ghost function FinishedPart(m: map<string, real>): (f: map<string, real>) {
    map n | n in m && m[n] >= 0.0 :: m[n]
  }

  /** The finished timers of the array, in array order: what `getAll` collects. */
  function DoneTimers(s: seq<Timer>): (r: seq<Timer>)
    ensures |r| <= |s|
    ensures forall t | t in r :: t in s && t.value >= 0.0
  {
    if s == [] then []
    else (if s[0].value >= 0.0 then [s[0]] else []) + DoneTimers(s[1..])
  }

  /** The array after `start(name)` at clock reading `now`. */
  function AfterStart(s: seq<Timer>, name: string, now: real): (r: seq<Timer>)
    ensures name in ToMap(s) ==> r == s
    ensures name !in ToMap(s) ==> r == s + [Timer(name, -now)]
    ensures ToMap(r) == if name in ToMap(s) then ToMap(s) else ToMap(s)[name := -now]
  {
    if Lookup(s, name).Some? then s
    else
      AssignAbsent(s, name, -now);
      Assign(s, name, -now)
  }

  /** The array after `finish(name)` at clock reading `now`. */
  function AfterFinish(s: seq<Timer>, name: string, now: real): (r: seq<Timer>)
    ensures name !in ToMap(s) ==> r == s
    ensures name in ToMap(s) ==> ToMap(r) == ToMap(s)[name := ToMap(s)[name] + now]
    ensures |r| == |s| && forall i | 0 <= i < |s| :: r[i].name == s[i].name
  {
    match Lookup(s, name)
    case None => s
    case Some(v) =>
      AssignPresent(s, name, v + now);
      Assign(s, name, v + now)
  }

  /** One call on the registry. */
  datatype Call = Start(name: string, now: real) | Finish(name: string, now: real)

  function Step(s: seq<Timer>, c: Call): (r: seq<Timer>) {
    match c
    case Start(name, now) => AfterStart(s, name, now)
    case Finish(name, now) => AfterFinish(s, name, now)
  }

  /** The array after a sequence of calls, each failing call leaving it as it was. */
  function Run(s: seq<Timer>, calls: seq<Call>): (r: seq<Timer>)
    decreases |calls|
  {
    if calls == [] then s else Run(Step(s, calls[0]), calls[1..])
  }

  // ----- Lemmas about the array operations -----

  /** A name no entry carries is not a key of the dictionary. */
  lemma {:induction false} NotInToMap(s: seq<Timer>, name: string)
    requires forall i | 0 <= i < |s| :: s[i].name != name
    ensures name !in ToMap(s)
  {
    if s != [] {
      assert forall i | 0 <= i < |s[1..]| :: s[1..][i].name == s[i + 1].name;
      NotInToMap(s[1..], name);
    }
  }

  /** With unique names, the first entry's name does not occur in the rest. */
  lemma HeadNotInRest(s: seq<Timer>)
    requires UniqueNames(s) && s != []
    ensures UniqueNames(s[1..])
    ensures s[0].name !in ToMap(s[1..])
  {
    assert forall i | 0 <= i < |s[1..]| :: s[1..][i].name == s[i + 1].name;
    NotInToMap(s[1..], s[0].name);
  }

  /** With unique names, the dictionary holds every entry's own value. */
  lemma {:induction false} ToMapAt(s: seq<Timer>, i: nat)
    requires UniqueNames(s)
    requires i < |s|
    ensures s[i].name in ToMap(s) && ToMap(s)[s[i].name] == s[i].value
  {
    if i > 0 {
      assert s[0].name != s[i].name;
      assert UniqueNames(s[1..]);
      ToMapAt(s[1..], i - 1);
    }
  }

  /** With unique names, the array has exactly one entry per key. */
  lemma {:induction false} CountIsKeys(s: seq<Timer>)
    requires UniqueNames(s)
    ensures |ToMap(s)| == |s|
  {
    if s != [] {
      HeadNotInRest(s);
      CountIsKeys(s[1..]);
    }
  }

  /** Assigning an existing key keeps the length and the order of the names. */
  lemma {:induction false} AssignPresent(s: seq<Timer>, name: string, v: real)
    requires name in ToMap(s)
    ensures |Assign(s, name, v)| == |s|
    ensures forall i | 0 <= i < |s| :: Assign(s, name, v)[i].name == s[i].name
  {
    if s[0].name != name {
      AssignPresent(s[1..], name, v);
    }
  }

  /** Assigning a new key appends one entry at the end. */
  lemma {:induction false} AssignAbsent(s: seq<Timer>, name: string, v: real)
    requires name !in ToMap(s)
    ensures Assign(s, name, v) == s + [Timer(name, v)]
  {
    if s != [] {
      AssignAbsent(s[1..], name, v);
      assert [s[0]] + (s[1..] + [Timer(name, v)]) == s + [Timer(name, v)];
    }
  }

  /** Assignment keeps the names unique. */
  lemma AssignKeepsUnique(s: seq<Timer>, name: string, v: real)
    requires UniqueNames(s)
    ensures UniqueNames(Assign(s, name, v))
  {
    if name in ToMap(s) {
      AssignPresent(s, name, v);
    } else {
      AssignAbsent(s, name, v);
    }
  }

  /** `start` and `finish` keep the names unique. */
  lemma StepKeepsUnique(s: seq<Timer>, c: Call)
    requires UniqueNames(s)
    ensures UniqueNames(Step(s, c))
  {
    match c
    case Start(name, now) =>
      if name !in ToMap(s) { AssignKeepsUnique(s, name, -now); }
    case Finish(name, now) =>
  }

  /** No sequence of calls removes a key, and the names stay unique. */
  lemma {:induction false} RunKeepsKeys(s: seq<Timer>, calls: seq<Call>)
    ensures ToMap(s).Keys <= ToMap(Run(s, calls)).Keys
    ensures |s| <= |Run(s, calls)|
    ensures UniqueNames(s) ==> UniqueNames(Run(s, calls))
    decreases |calls|
  {
    if calls != [] {
      var next := Step(s, calls[0]);
      if UniqueNames(s) { StepKeepsUnique(s, calls[0]); }
      RunKeepsKeys(next, calls[1..]);
    }
  }

  /** With positive clock readings, a timer started at t0 is running; once
      finished at t1 >= t0 it is done and holds t1 - t0. */
  lemma StartThenFinish(s: seq<Timer>, name: string, t0: real, t1: real)
    requires name !in ToMap(s)
    requires 0.0 < t0 <= t1
    ensures name in ToMap(AfterStart(s, name, t0))
    ensures !(ToMap(AfterStart(s, name, t0))[name] >= 0.0)
    ensures ToMap(AfterFinish(AfterStart(s, name, t0), name, t1))[name] == t1 - t0
    ensures ToMap(AfterFinish(AfterStart(s, name, t0), name, t1))[name] >= 0.0
  {
  }

  /** Right after `start`, the sign encoding reports the timer as done exactly
      when the clock reading was not positive. */
  lemma DoneRightAfterStart(s: seq<Timer>, name: string, now: real)
    requires name !in ToMap(s)
    ensures ToMap(AfterStart(s, name, now))[name] >= 0.0 <==> now <= 0.0
  {
  }

  /** `finish` on a finished timer adds the clock reading once more. */
  lemma FinishTwice(s: seq<Timer>, name: string, t1: real, t2: real)
    requires name in ToMap(s)
    ensures ToMap(AfterFinish(AfterFinish(s, name, t1), name, t2))[name] == ToMap(s)[name] + t1 + t2
  {
  }

  // ----- Lemmas about the finished timers -----

  /** Collecting the finished timers works piecewise, keeping array order. */
  lemma {:induction false} DoneTimersAppend(a: seq<Timer>, b: seq<Timer>)
    ensures DoneTimers(a + b) == DoneTimers(a) + DoneTimers(b)
  {
    if a == [] {
      assert a + b == b;
    } else {
      assert (a + b)[0] == a[0];
      assert (a + b)[1..] == a[1..] + b;
      DoneTimersAppend(a[1..], b);
    }
  }

  /** An entry is collected exactly when it is in the array and not negative. */
  lemma {:induction false} DoneTimersMembers(s: seq<Timer>)
    ensures forall t :: t in DoneTimers(s) <==> t in s && t.value >= 0.0
  {
    if s != [] {
      DoneTimersMembers(s[1..]);
      assert forall t :: t in s <==> t == s[0] || t in s[1..];
    }
  }

  /** Adding a new key to a dictionary adds it to the finished part exactly
      when its value is not negative. */
  lemma FinishedPartUpdate(m: map<string, real>, k: string, v: real)
    requires k !in m
    ensures FinishedPart(m[k := v]) == if v >= 0.0 then FinishedPart(m)[k := v] else FinishedPart(m)
  {
    var l, r := FinishedPart(m[k := v]), if v >= 0.0 then FinishedPart(m)[k := v] else FinishedPart(m);
    assert forall n :: n in l <==> n in r;
    assert forall n | n in l :: l[n] == r[n];
  }

  /** The collected entries keep unique names unique. */
  lemma {:induction false} DoneTimersUnique(s: seq<Timer>)
    requires UniqueNames(s)
    ensures UniqueNames(DoneTimers(s))
  {
    if s != [] {
      var rest := s[1..];
      HeadNotInRest(s);
      DoneTimersUnique(rest);
      var d := DoneTimers(rest);
      if s[0].value >= 0.0 {
        assert forall j | 0 <= j < |d| :: d[j].name != s[0].name by {
          forall j | 0 <= j < |d| ensures d[j].name != s[0].name {
            assert d[j] in rest;
          }
        }
        assert UniqueNames([s[0]] + d) by {
          forall i, j | 0 <= i < j < |[s[0]] + d|
            ensures ([s[0]] + d)[i].name != ([s[0]] + d)[j].name
          {
            if i > 0 { assert ([s[0]] + d)[i] == d[i - 1]; }
            assert ([s[0]] + d)[j] == d[j - 1];
          }
        }
      }
    }
  }

  /** With unique names, the collected entries form the finished part of the
      dictionary, values unchanged. */
  lemma {:induction false} DoneTimersMap(s: seq<Timer>)
    requires UniqueNames(s)
    ensures ToMap(DoneTimers(s)) == FinishedPart(ToMap(s))
  {
    if s != [] {
      var rest := s[1..];
      HeadNotInRest(s);
      DoneTimersMap(rest);
      FinishedPartUpdate(ToMap(rest), s[0].name, s[0].value);
      if s[0].value >= 0.0 {
        var d := DoneTimers(rest);
        assert ([s[0]] + d)[1..] == d;
      } else {
        assert DoneTimers(s) == [] + DoneTimers(rest) == DoneTimers(rest);
        assert ToMap(s) == ToMap(rest)[s[0].name := s[0].value];
      }
    }
  }
}
