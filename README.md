# TicTacTic timer registry, modelled in Dafny

`Malenki\TicTacTic` keeps named stopwatch timers in one PHP array,
`arr_timers`, from timer name to a signed number. `start(name)` stores minus
the current time; `finish(name)` adds the current time to it, so a value that
is not negative means the timer is done and holds its elapsed time. `has`,
`count`, `done` and `get` read the array; `getAll` collects the finished
timers. Starting a known name, or finishing, querying or reading an unknown
one, throws.

The model has two modules:

- `Timers` (`timers.dfy`) models the PHP array as values: a sequence of
  `Timer(name, value)` entries in insertion order, its dictionary view `ToMap`,
  reading a key (`Lookup`), writing a key (`Assign`: an existing key is replaced
  where it stands, a new one appended), the array after `start` and after
  `finish` (`AfterStart`, `AfterFinish`), after a sequence of calls (`Run`), and
  the finished timers in order (`DoneTimers`), with the lemmas about them.
- `Malenki` (`tictactic.dfy`) holds the class `TicTacTic` with the field
  `timers` (the `arr_timers` array), its invariant `Valid()` (no name twice),
  the mutating methods `Start` and `Finish`, the queries `Has`, `Count`, `Done`
  and `Get` as functions, and `GetAll` as a method with the source's loop.

The clock reading is an argument `now: real` of `Start` and `Finish`.
Exceptions become an `Outcome` (`Pass` or `Fail(AlreadyDefined | NotDefined)`)
for `Start` and `Finish` and a `Result` for `Done` and `Get`; a failing call
changes nothing.

The class has no `finishAll` or `average`, and does not refuse to finish a
timer twice: `Finish` on a finished timer adds the clock reading once more
(`Timers.FinishTwice`).

## Model

| member | source | states |
|---|---|---|
| Malenki.TicTacTic.constructor | src/Malenki/TicTacTic.php:47 | a new registry holds no timer |
| Malenki.TicTacTic.Has | src/Malenki/TicTacTic.php:74-77 | true exactly when the name is a key of the registry |
| Malenki.TicTacTic.Count | src/Malenki/TicTacTic.php:86-89 | the number of distinct names in the registry, running or finished |
| Malenki.TicTacTic.Start | src/Malenki/TicTacTic.php:100-110 | a known name fails with AlreadyDefined and leaves the array unchanged; a new name is appended with value minus the clock reading, every other entry kept and the count one higher |
| Malenki.TicTacTic.Finish | src/Malenki/TicTacTic.php:121-131 | an unknown name fails with NotDefined and changes nothing; a known name gets the clock reading added to its value only; the key set and the count never change |
| Malenki.TicTacTic.Done | src/Malenki/TicTacTic.php:142-150 | NotDefined for an unknown name, otherwise whether the stored value is not negative; reads the state only |
| Malenki.TicTacTic.Get | src/Malenki/TicTacTic.php:161-169 | NotDefined for an unknown name, otherwise the stored value as it is; reads the state only |
| Malenki.TicTacTic.GetAll | src/Malenki/TicTacTic.php:178-191 | exactly the entries whose value is not negative, values unchanged, in array order; names unique, as in a PHP array keyed by name; as a dictionary the finished part of the registry, with exactly as many entries as there are finished timers; never a running timer; no more entries than the count |
| Malenki.StartThenFinishOn | src/Malenki/TicTacTic.php:100-169 | on the class: with positive clock readings t0 <= t1, done reports the timer as running between start and finish; afterwards it is done with get equal to t1 - t0, and the count one higher |
| Timers.Lookup | src/Malenki/TicTacTic.php:74-77 | reading a key gives its dictionary value, or nothing when the key does not exist |
| Timers.Assign | src/Malenki/TicTacTic.php:108 | writing a key sets that key's value in the dictionary and leaves every other key as it was |
| Timers.AssignAbsent | src/Malenki/TicTacTic.php:108 | writing a new key appends one entry at the end of the array |
| Timers.AssignPresent | src/Malenki/TicTacTic.php:125 | writing an existing key keeps the length of the array and the order of its names |
| Timers.AssignKeepsUnique | src/Malenki/TicTacTic.php:108-125 | writing a key keeps the names of the array unique |
| Timers.ToMapAt | src/Malenki/TicTacTic.php:168 | with unique names, the value read under an entry's name is that entry's value |
| Timers.CountIsKeys | src/Malenki/TicTacTic.php:86-89 | with unique names, the length of the array equals the number of distinct names |
| Timers.AfterStart | src/Malenki/TicTacTic.php:100-110 | start on a known name leaves the array as it was; on a new name it appends the name with minus the clock reading |
| Timers.AfterFinish | src/Malenki/TicTacTic.php:121-131 | finish on an unknown name leaves the array as it was; on a known name it adds the clock reading to that value only; names and their order never change |
| Timers.StepKeepsUnique | src/Malenki/TicTacTic.php:100-131 | start and finish keep the names unique |
| Timers.RunKeepsKeys | src/Malenki/TicTacTic.php:100-131 | no sequence of start and finish calls removes a key or shortens the array, and unique names stay unique |
| Timers.StartThenFinish | src/Malenki/TicTacTic.php:100-169 | with positive clock readings t0 <= t1, right after start the timer is not done; after finish it is done and holds t1 - t0 |
| Timers.DoneRightAfterStart | src/Malenki/TicTacTic.php:108-149 | right after start the timer reads as done exactly when the clock reading was not positive |
| Timers.FinishTwice | src/Malenki/TicTacTic.php:121-131 | finishing a timer twice adds both clock readings to its value |
| Timers.DoneTimers | src/Malenki/TicTacTic.php:178-191 | the collected timers are no more than the array's entries, each of them an entry of the array with a value that is not negative |
| Timers.DoneTimersAppend | src/Malenki/TicTacTic.php:182-188 | collecting works piecewise over the array, keeping array order |
| Timers.DoneTimersMembers | src/Malenki/TicTacTic.php:182-188 | an entry is collected exactly when it is in the array and its value is not negative |
| Timers.DoneTimersUnique | src/Malenki/TicTacTic.php:180-190 | the collected entries have unique names when the array does |
| Timers.DoneTimersMap | src/Malenki/TicTacTic.php:178-191 | with unique names, the collected entries as a dictionary are the finished part of the array's dictionary, values unchanged |

## Left out

- The clock: `microtime(true)` is read by the caller and passed in as `now`.
- Floating point: stored values are exact reals; PHP float rounding is not modelled.
- The singleton accessor `getInstance` and its static field: global state with nothing to prove beyond returning one object.
- The `\Countable` interface plumbing, the gettext message texts and the `\Exception` class: failures are the `AlreadyDefined` and `NotDefined` error values.
- PHP's key coercion: names are strings, so a numeric string and the integer key PHP would turn it into are not identified.
- `finishAll` and `average` are not part of the class and are not modelled.
