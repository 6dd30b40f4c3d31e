# autoClicker hotkey engine, modelled in Dafny

The autoClicker listens to global keyboard and mouse events. When the start
hotkey (alt + left mouse button) is held, it starts a loop that clicks as
fast as possible at the position the pointer had when the loop started. The
stop hotkey (ctrl + q) ends the loop.

This project models the sequential core of `clicker.go`:

- `Codes`: the 16-bit input codes, and the translation of key names into codes when a hotkey is registered.
- `Tracker`: the pressed-state tracker. It folds each event into one pressed map per device class. The mouse rule is asymmetric: "hold" means pressed, while both "down" and "up" mean released.
- `Matcher`: `allPressed`, which asks whether every code of a combination is pressed.
- `Hotkeys`: the hotkey bindings, the start and stop actions on the running flag, and the dispatch loop. For each of the six event kinds the tracker reacts to (key down, hold and up; mouse hold, up and down), the loop tracks the event and then runs every hook in registration order. Any other event (mouse move, drag, wheel, hook start or stop) changes nothing and runs no hook. The whole process state is one record: both pressed maps, the running flag, and `spawned`. `spawned` counts the clicker tasks started. It stands in for the goroutines and is not in the source.
- `ClickLoop`: one clicker run. It covers the position captured once, the move-and-click on every lap, and the click counter. It also covers the countdown window that triggers a rate report every 400 clicks.

The name tables of the hook library are parameters (`NameTable`). The number of laps a clicker runs is also a parameter. In the program, that number depends on when the dispatch loop clears the flag.

## Model

| member | source | states |
|---|---|---|
| Codes.KeyNamesToCodes | clicker.go:154-161 | the result has one code per name, in the same order; a known name gives its table entry, an unknown name gives code 0 |
| Codes.ResolveNames | clicker.go:154-161 | the append loop produces a list as long as the input whose entry i is the lookup of name i (0 when unknown), and it agrees with `KeyNamesToCodes` |
| Codes.KeyNamesToCodesAppend | clicker.go:154-161 | translating a concatenation of name lists equals concatenating their translations |
| Tracker.Track | clicker.go:36-49 | KeyDown/KeyHold set the keyboard entry to true, KeyUp sets it false, MouseHold sets the mouse entry true, MouseUp and MouseDown set it false; the other map is untouched; any other kind changes nothing |
| Tracker.ClassifyByKind | clicker.go:36-49 | exactly the six handled kinds have an effect; keyboard kinds are KeyDown/KeyHold/KeyUp, pressed unless KeyUp; a mouse kind means pressed only for MouseHold |
| Tracker.TrackReadBack | clicker.go:36-49 | after an event, its own (device, code) pair reads as the event's value and every other pair reads as before |
| Tracker.MouseDownReleases | clicker.go:46-47 | a mouse down event leaves its button not pressed |
| Tracker.TrackAllReflectsLast | clicker.go:33-49 | after any event stream, a pair reads pressed exactly when the latest event for it said pressed; untouched pairs keep their initial reading |
| Matcher.AllPressed | clicker.go:169-177 | true iff every listed code is present in the map with value true; absent codes count as not pressed; the empty list is true |
| Matcher.AllPressedScan | clicker.go:169-177 | the early-return scan answers true iff every listed code is pressed |
| Matcher.EmptyCombinationHolds | clicker.go:169-177 | the empty combination holds in every state |
| Matcher.ReleaseBreaks | clicker.go:169-177 | releasing any one required code makes the combination fail |
| Matcher.AllPressedDependsOnSetOnly | clicker.go:169-177 | two lists with the same codes give the same answer, whatever the order or repetition |
| Hotkeys.Register | clicker.go:59-61 | a binding holds the resolved keyboard and mouse codes, one per name in order, with unknown names as 0, and the given action |
| Hotkeys.Fire | clicker.go:63-75 | start sets running; from stopped it starts exactly one clicker, and when already running it changes nothing; stop clears running and starts nothing; neither touches the pressed maps |
| Hotkeys.StartIdempotent | clicker.go:67-74 | starting twice equals starting once, and one start adds at most one clicker |
| Hotkeys.StopIdempotent | clicker.go:138-143 | stopping twice equals stopping once, and stopping a stopped controller changes nothing |
| Hotkeys.HandleEvent | clicker.go:163-167 | the action runs exactly when both the keyboard and the mouse combination hold; otherwise the state is unchanged |
| Hotkeys.RunHooks | clicker.go:51-55 | running the hooks in order never touches the pressed maps and never lowers the clicker count; it raises the count by at most the number of start hooks; a stopped-to-running change always starts a clicker |
| Hotkeys.Step | clicker.go:33-56 | the pressed maps become the tracked ones; an unhandled kind leaves the whole state unchanged and evaluates no hook; at most one clicker per start hook is started |
| Hotkeys.Run | clicker.go:33-56 | along any stream of events the dispatch loop never lowers the count of started clickers |
| Hotkeys.RunTracks | clicker.go:33-56 | after any event stream, the pressed maps equal the tracker's fold of the events; the hooks never interfere with tracking |
| Hotkeys.RunReflectsLast | clicker.go:33-49 | across the dispatch loop, a key or button reads pressed exactly when its latest event said so |
| Hotkeys.RunKeepsConsistent | clicker.go:67-74 | along any event stream, a running controller has started at least one clicker |
| Hotkeys.DefaultHooks | clicker.go:28-31 | exactly two bindings, start before stop: start on alt with the left button, stop on ctrl and q with no mouse button |
| Hotkeys.DefaultStep | clicker.go:28-31 | with the two fixed bindings, after one handled event the controller runs iff (it was running or alt+left is held) and ctrl+q is not held; it starts a clicker iff it was stopped and alt+left is held; it never starts two |
| Hotkeys.DefaultRunSpawnsOnlyFromStopped | clicker.go:33-56 | along any event stream with the fixed bindings, each event starts at most one clicker, and only when the controller was stopped just before it |
| Hotkeys.StartScenario | clicker.go:63-75 | alt then left button, or left button then alt, takes the controller from startup to running with exactly one clicker; another left-button hold while running starts no second one |
| Hotkeys.StopScenario | clicker.go:134-143 | pressing ctrl then q leaves the controller stopped, from any state |
| Hotkeys.StopWhenStopped | clicker.go:138-143 | on a stopped controller, an event that does not complete the start combination leaves it stopped and starts no clicker |
| Hotkeys.StopWithStartHeldSpawns | clicker.go:28-31 | on a stopped controller, an event after which both the start and the stop combination hold starts one clicker and leaves the controller stopped |
| Hotkeys.UnknownNameMeansCodeZero | clicker.go:154-161 | a binding with an unknown keyboard name fires exactly when keyboard code 0 is pressed |
| ClickLoop.Lap | clicker.go:92-112 | one lap sets the click count to the old count plus one modulo 2^64; it reports exactly when the countdown was 1, and then the countdown restarts at the threshold; otherwise the countdown drops by one |
| ClickLoop.Laps | clicker.go:81-82 | from the fresh window of a started clicker, the click count stays an unsigned 64-bit value after any number of laps |
| ClickLoop.WindowClicks | clicker.go:81-92 | after n laps of a run the click count is n modulo 2^64 |
| ClickLoop.WindowCounter | clicker.go:82-110 | after n laps of a run the countdown is threshold - n mod threshold, within 1..threshold |
| ClickLoop.WindowInvariant | clicker.go:81-112 | after n laps the click count is n modulo 2^64 and the countdown is threshold - n mod threshold, so it stays within 1..threshold |
| ClickLoop.CounterFollowsClicks | clicker.go:92-110 | before the click count wraps, the count equals the number of laps and countdown == threshold - clicks mod threshold |
| ClickLoop.ReportsOnMultiples | clicker.go:95-112 | lap n+1 reports and resets the window exactly when n+1 is a multiple of the threshold |
| ClickLoop.ReportEvery400Clicks | clicker.go:13 | with the program's threshold of 400, a report comes exactly on laps that are multiples of 400 |
| ClickLoop.ReportAfterLap | clicker.go:92-110 | a lap that reports is lap n for a positive multiple n of the threshold, and the report carries n modulo 2^64 |
| ClickLoop.ClickerOutputMoves | clicker.go:88-91 | in a run's output every move goes to the captured position and every click comes right after such a move |
| ClickLoop.ClickerOutputCounts | clicker.go:92-112 | a run of n laps clicks n times and reports n / threshold times |
| ClickLoop.ClickerOutputReports | clicker.go:95-108 | every report follows a positive multiple of threshold clicks of this run and carries that count modulo 2^64 |
| ClickLoop.Clicker | clicker.go:79-132 | the output is lap by lap a move to the position captured at start, a click, and a report when the window closes; every click directly follows a move to that position; one click per lap; laps/threshold reports; each report comes after a positive multiple of threshold clicks and carries the clicks of this run only |

## Notes on the model

- Unknown names. An unknown hotkey name silently resolves to code 0, because a map read of a missing key yields the zero value. Such a binding is not inert, though: code 0 takes the unknown name's place in the combination, so the binding fires when code 0 and all its other codes are pressed. For a binding made of that one name, this means it fires whenever the hook reports code 0 as pressed on that device; `Hotkeys.UnknownNameMeansCodeZero` states this case.
- Hooks run on every handled event, not only when a map entry changes. A repeated KeyHold therefore re-evaluates both bindings.
- When both the start and the stop combination hold during one event, the start hook runs first: if the controller was stopped, it starts a clicker, and the stop hook clears the flag right after. If it was running, the start hook changes nothing and the stop hook stops it. `Hotkeys.DefaultStep` states the resulting count. One consequence: the stop combination on a stopped controller is not a no-op while alt and the left button are also held, since that event starts (and at once stops) one clicker. `Hotkeys.StopWithStartHeldSpawns` states this.

## Left out

- The hook library and the mouse primitives (`robotgo.Start`, `GetMousePos`, `MoveMouse`, `MouseClick`) are foreign I/O. The event stream is a sequence of events, the name tables are parameters, and a clicker run's moves and clicks are `ClickLoop.Output` values.
- The `go clicker()` goroutine and the unsynchronised shared running flag are concurrency. The model keeps the flag's sequential transitions and a `spawned` count of started clickers. It does not model the race in which a clicker that has not yet seen a stop keeps running next to a newly started one. It also does not model how many laps run before the stop is seen; the clicker takes that as a parameter.
- Wall-clock time and float arithmetic are left out: `time.Now`, the elapsed time, milliseconds per click and clicks per second. A report keeps only the click count it prints.
- Log lines and the commented-out ticker/sleep design (`clickWaitMs` only appears in log text) are left out.
- ClickLoop.WindowInvariant: assumes a positive threshold (as do WindowCounter and the lemmas built on them). The program's threshold is the constant 400. With a threshold of 0 or less, the countdown would never reach zero.
- The real keycode values of "alt", "ctrl", "q" and "mleft" are not modelled. `Hotkeys.StartScenario` requires only that "q" and "alt" resolve to different codes.
