/**
 The hotkey registry, the start/stop controller and the event dispatch loop.

 The process-wide state is one record: the two pressed maps, the running flag,
 and `spawned`, the number of click loops started so far (bookkeeping that
 stands for the background clicker tasks).
 */
module Hotkeys {
  import opened Codes
  import opened Tracker
  import opened Matcher

  datatype Action = StartClicking | StopClicking

  /** A registered hotkey: a keyboard and a mouse combination, resolved once at
      registration, and the action to run when both hold. */
  datatype Binding = Binding(keyboard: seq<Code>, mouse: seq<Code>, action: Action)

  datatype State = State(pressed: Pressed, running: bool, spawned: nat)

  /** Startup state: nothing pressed, no click loop running or ever started. */
  const Init: State := State(Pressed(map[], map[]), false, 0)

  /** Registration: resolve both name lists against their device's table. */
  function Register(keyTable: NameTable, mouseTable: NameTable,
                    keyNames: seq<string>, mouseNames: seq<string>, action: Action): (b: Binding)
    ensures b.action == action
    ensures |b.keyboard| == |keyNames| && |b.mouse| == |mouseNames|
    ensures forall i :: 0 <= i < |keyNames| ==> b.keyboard[i] == Lookup(keyTable, keyNames[i])
    ensures forall i :: 0 <= i < |mouseNames| ==> b.mouse[i] == Lookup(mouseTable, mouseNames[i])
  {
    Binding(KeyNamesToCodes(keyTable, keyNames), KeyNamesToCodes(mouseTable, mouseNames), action)
  }

  /** The two fixed bindings, in registration order: start on alt + left
      button, stop on ctrl + q with no mouse button. */
  function DefaultHooks(keyTable: NameTable, mouseTable: NameTable): (hooks: seq<Binding>)
    ensures |hooks| == 2
    ensures hooks[0].action == StartClicking && hooks[1].action == StopClicking
    ensures hooks[0].keyboard == [Lookup(keyTable, "alt")] && hooks[0].mouse == [Lookup(mouseTable, "mleft")]
    ensures hooks[1].keyboard == [Lookup(keyTable, "ctrl"), Lookup(keyTable, "q")] && hooks[1].mouse == []
  {
    [ Register(keyTable, mouseTable, ["alt"], ["mleft"], StartClicking),
      Register(keyTable, mouseTable, ["ctrl", "q"], [], StopClicking) ]
  }

  /** A binding's trigger condition: both of its combinations hold. */
  predicate Satisfied(p: Pressed, b: Binding)
  {
    AllPressed(p.keyboard, b.keyboard) && AllPressed(p.mouse, b.mouse)
  }

  /** The action bodies. Start is guarded by the flag and starts a click loop
      only when none is running; stop clears the flag unconditionally. */
  function Fire(s: State, a: Action): (r: State)
    ensures r.pressed == s.pressed
    ensures a == StopClicking ==> !r.running && r.spawned == s.spawned
    ensures a == StartClicking ==> r.running
    ensures a == StartClicking && s.running ==> r == s
    ensures a == StartClicking && !s.running ==> r.spawned == s.spawned + 1
  {
    match a
    case StartClicking => if s.running then s else s.(running := true, spawned := s.spawned + 1)
    case StopClicking => s.(running := false)
  }

  /** Starting twice is the same as starting once: no second click loop. */
  lemma StartIdempotent(s: State)
    ensures Fire(Fire(s, StartClicking), StartClicking) == Fire(s, StartClicking)
    ensures Fire(s, StartClicking).spawned <= s.spawned + 1
  {
  }

  /** Stopping twice is the same as stopping once, and stopping a stopped
      controller changes nothing. */
  lemma StopIdempotent(s: State)
    ensures Fire(Fire(s, StopClicking), StopClicking) == Fire(s, StopClicking)
    ensures !s.running ==> Fire(s, StopClicking) == s
  {
  }

  /** One hook: run the binding's action when both combinations hold. */
  function HandleEvent(s: State, b: Binding): (r: State)
    ensures r.pressed == s.pressed
    ensures !Satisfied(s.pressed, b) ==> r == s
    ensures Satisfied(s.pressed, b) ==> r == Fire(s, b.action)
  {
    if Satisfied(s.pressed, b) then Fire(s, b.action) else s
  }

  function CountStarts(hooks: seq<Binding>): nat
  {
    if |hooks| == 0 then 0
    else (if hooks[0].action == StartClicking then 1 else 0) + CountStarts(hooks[1..])
  }

  /** Runs every hook once, in registration order, each seeing the state the
      previous one left. Hooks never touch the pressed maps, the spawn count
      never goes down, and each start hook spawns at most once. */
  function RunHooks(s: State, hooks: seq<Binding>): (r: State)
    ensures r.pressed == s.pressed
    ensures s.spawned <= r.spawned <= s.spawned + CountStarts(hooks)
    ensures r.running && !s.running ==> r.spawned > s.spawned
    decreases |hooks|
  {
    if |hooks| == 0 then s else RunHooks(HandleEvent(s, hooks[0]), hooks[1..])
  }

  /** The dispatch loop's body for one event: track it, then, for every kind
      the tracker reacts to, run all hooks in order. Other kinds change
      nothing and evaluate no hook. */
  function Step(s: State, hooks: seq<Binding>, ev: Event): (r: State)
    ensures r.pressed == Track(s.pressed, ev)
    ensures ev.kind.OtherKind? ==> r == s
    ensures s.spawned <= r.spawned <= s.spawned + CountStarts(hooks)
  {
    if ev.kind.OtherKind? then s
    else RunHooks(s.(pressed := Track(s.pressed, ev)), hooks)
  }

  /** The dispatch loop over a finite prefix of the event stream. */
  function Run(s: State, hooks: seq<Binding>, events: seq<Event>): (r: State)
    ensures r.spawned >= s.spawned
  {
    if |events| == 0 then s
    else Step(Run(s, hooks, events[..|events| - 1]), hooks, events[|events| - 1])
  }

  /** The pressed maps after any run are exactly the tracker's fold of the
      events: the hooks never interfere with tracking. */
  lemma {:induction false} RunTracks(s: State, hooks: seq<Binding>, events: seq<Event>)
    ensures Run(s, hooks, events).pressed == TrackAll(s.pressed, events)
  {
    if |events| > 0 {
      RunTracks(s, hooks, events[..|events| - 1]);
    }
  }

  /** After any run, a key or button reads as pressed exactly when the latest
      event for it said so, and one no event touched reads as before. */
  lemma RunReflectsLast(s: State, hooks: seq<Binding>, events: seq<Event>, d: Device, c: Code)
    ensures LastRecorded(events, d, c).Seen? ==>
              IsPressed(Run(s, hooks, events).pressed.Of(d), c) == LastRecorded(events, d, c).pressed
    ensures LastRecorded(events, d, c).Unseen? ==>
              IsPressed(Run(s, hooks, events).pressed.Of(d), c) == IsPressed(s.pressed.Of(d), c)
  {
    RunTracks(s, hooks, events);
    TrackAllReflectsLast(s.pressed, events, d, c);
  }

  /** A running controller has started at least one click loop; every step
      keeps this. */
  ghost predicate Consistent(s: State)
  {
    s.running ==> s.spawned >= 1
  }

  lemma {:induction false} RunKeepsConsistent(s: State, hooks: seq<Binding>, events: seq<Event>)
    requires Consistent(s)
    ensures Consistent(Run(s, hooks, events))
  {
    if |events| > 0 {
      var before := Run(s, hooks, events[..|events| - 1]);
      RunKeepsConsistent(s, hooks, events[..|events| - 1]);
      var ev := events[|events| - 1];
      if !ev.kind.OtherKind? {
        assert Run(s, hooks, events) == RunHooks(before.(pressed := Track(before.pressed, ev)), hooks);
      }
    }
  }

  /** The start combination of the fixed bindings. */
  predicate StartHeld(keyTable: NameTable, mouseTable: NameTable, p: Pressed)
  {
    IsPressed(p.keyboard, Lookup(keyTable, "alt")) && IsPressed(p.mouse, Lookup(mouseTable, "mleft"))
  }

  /** The stop combination of the fixed bindings. */
  predicate StopHeld(keyTable: NameTable, p: Pressed)
  {
    IsPressed(p.keyboard, Lookup(keyTable, "ctrl")) && IsPressed(p.keyboard, Lookup(keyTable, "q"))
  }

  /** With the fixed bindings, one tracked event leaves the controller
      running exactly when it was running or the start combination holds, and
      the stop combination does not; it starts a click loop exactly when it
      was stopped and the start combination holds, and never more than one. */
  lemma DefaultStep(keyTable: NameTable, mouseTable: NameTable, s: State, ev: Event)
    requires !ev.kind.OtherKind?
    ensures var r := Step(s, DefaultHooks(keyTable, mouseTable), ev);
            var p := Track(s.pressed, ev);
            && r.pressed == p
            && (r.running <==> (s.running || StartHeld(keyTable, mouseTable, p)) && !StopHeld(keyTable, p))
            && (r.spawned == if !s.running && StartHeld(keyTable, mouseTable, p) then s.spawned + 1 else s.spawned)
  {
    var hooks := DefaultHooks(keyTable, mouseTable);
    var p := Track(s.pressed, ev);
    var t := s.(pressed := p);
    DefaultSatisfied(keyTable, mouseTable, p);
    RunTwoHooks(t, hooks);
    var u := HandleEvent(t, hooks[0]);
    assert u.running == (s.running || StartHeld(keyTable, mouseTable, p));
    assert u.spawned == if !s.running && StartHeld(keyTable, mouseTable, p) then s.spawned + 1 else s.spawned;
  }

  /** The fixed bindings hold exactly when their named keys are pressed. */
  lemma DefaultSatisfied(keyTable: NameTable, mouseTable: NameTable, p: Pressed)
    ensures Satisfied(p, DefaultHooks(keyTable, mouseTable)[0]) == StartHeld(keyTable, mouseTable, p)
    ensures Satisfied(p, DefaultHooks(keyTable, mouseTable)[1]) == StopHeld(keyTable, p)
  {
  }

  /** Two hooks run as the first followed by the second. */
  lemma RunTwoHooks(s: State, hooks: seq<Binding>)
    requires |hooks| == 2
    ensures RunHooks(s, hooks) == HandleEvent(HandleEvent(s, hooks[0]), hooks[1])
  {
    var u := HandleEvent(s, hooks[0]);
    assert RunHooks(s, hooks) == RunHooks(u, hooks[1..]);
    assert RunHooks(u, hooks[1..]) == RunHooks(HandleEvent(u, hooks[1]), hooks[1..][1..]);
    assert hooks[1..][1..] == [];
  }

  /** Along any stream of events with the fixed bindings, each event starts at
      most one click loop, and only when the controller was stopped before it. */
  lemma DefaultRunSpawnsOnlyFromStopped(keyTable: NameTable, mouseTable: NameTable,
                                        s: State, events: seq<Event>, i: nat)
    requires i < |events|
    ensures var hooks := DefaultHooks(keyTable, mouseTable);
            var before := Run(s, hooks, events[..i]);
            var after := Run(s, hooks, events[..i + 1]);
            && after.spawned <= before.spawned + 1
            && (after.spawned > before.spawned ==> !before.running)
  {
    var hooks := DefaultHooks(keyTable, mouseTable);
    assert events[..i + 1][..i] == events[..i];
    var before := Run(s, hooks, events[..i]);
    assert Run(s, hooks, events[..i + 1]) == Step(before, hooks, events[i]);
    if !events[i].kind.OtherKind? {
      DefaultStep(keyTable, mouseTable, before, events[i]);
    }
  }

  /** Pressing alt and then the left button, or the other way round, starts
      exactly one click loop; pressing the button again while running starts
      no second one. The stop combination must not be made of alt alone. */
  lemma StartScenario(keyTable: NameTable, mouseTable: NameTable)
    requires Lookup(keyTable, "q") != Lookup(keyTable, "alt")
    ensures var alt := Event(KeyDown, Lookup(keyTable, "alt"));
            var left := Event(MouseHold, Lookup(mouseTable, "mleft"));
            var hooks := DefaultHooks(keyTable, mouseTable);
            && Run(Init, hooks, [alt, left]).running
            && Run(Init, hooks, [alt, left]).spawned == 1
            && Run(Init, hooks, [left, alt]).running
            && Run(Init, hooks, [left, alt]).spawned == 1
            && Run(Init, hooks, [alt, left, left]).running
            && Run(Init, hooks, [alt, left, left]).spawned == 1
  {
    var alt := Event(KeyDown, Lookup(keyTable, "alt"));
    var left := Event(MouseHold, Lookup(mouseTable, "mleft"));
    var hooks := DefaultHooks(keyTable, mouseTable);
    DefaultStep(keyTable, mouseTable, Init, alt);
    DefaultStep(keyTable, mouseTable, Init, left);
    var a := Step(Init, hooks, alt);
    var l := Step(Init, hooks, left);
    assert Run(Init, hooks, [alt]) == a by { assert [alt][..0] == []; }
    assert Run(Init, hooks, [left]) == l by { assert [left][..0] == []; }
    DefaultStep(keyTable, mouseTable, a, left);
    DefaultStep(keyTable, mouseTable, l, alt);
    assert [alt, left][..1] == [alt];
    assert [left, alt][..1] == [left];
    var al := Step(a, hooks, left);
    assert Run(Init, hooks, [alt, left]) == al;
    DefaultStep(keyTable, mouseTable, al, left);
    assert [alt, left, left][..2] == [alt, left];
  }

  /** Pressing ctrl and then q stops the controller from any state. */
  lemma StopScenario(keyTable: NameTable, mouseTable: NameTable, s: State)
    ensures var ctrl := Event(KeyDown, Lookup(keyTable, "ctrl"));
            var q := Event(KeyDown, Lookup(keyTable, "q"));
            !Run(s, DefaultHooks(keyTable, mouseTable), [ctrl, q]).running
  {
    var ctrl := Event(KeyDown, Lookup(keyTable, "ctrl"));
    var q := Event(KeyDown, Lookup(keyTable, "q"));
    var hooks := DefaultHooks(keyTable, mouseTable);
    assert [ctrl, q][..1] == [ctrl];
    assert [ctrl][..0] == [];
    var c := Step(s, hooks, ctrl);
    assert Run(s, hooks, [ctrl]) == c;
    assert Run(s, hooks, [ctrl, q]) == Step(c, hooks, q);
    DefaultStep(keyTable, mouseTable, c, q);
  }

  /** The stop combination on a stopped controller is a no-op for the
      controller: it stays stopped and no click loop is started, as long as
      the start combination does not also hold. */
  lemma StopWhenStopped(keyTable: NameTable, mouseTable: NameTable, s: State, ev: Event)
    requires !ev.kind.OtherKind?
    requires !s.running
    requires !StartHeld(keyTable, mouseTable, Track(s.pressed, ev))
    ensures !Step(s, DefaultHooks(keyTable, mouseTable), ev).running
    ensures Step(s, DefaultHooks(keyTable, mouseTable), ev).spawned == s.spawned
  {
    DefaultStep(keyTable, mouseTable, s, ev);
  }

  /** The stop combination on a stopped controller is not a no-op when the
      start combination also holds: the start hook runs first, starts a click
      loop, and the stop hook clears the flag right after. */
  lemma StopWithStartHeldSpawns(keyTable: NameTable, mouseTable: NameTable, s: State, ev: Event)
    requires !ev.kind.OtherKind?
    requires !s.running
    requires StartHeld(keyTable, mouseTable, Track(s.pressed, ev))
    requires StopHeld(keyTable, Track(s.pressed, ev))
    ensures !Step(s, DefaultHooks(keyTable, mouseTable), ev).running
    ensures Step(s, DefaultHooks(keyTable, mouseTable), ev).spawned == s.spawned + 1
  {
    DefaultStep(keyTable, mouseTable, s, ev);
  }

  /** An unknown name does not make a binding inert: it resolves to code 0,
      and the binding fires whenever code 0 is pressed on that device. */
  lemma UnknownNameMeansCodeZero(keyTable: NameTable, mouseTable: NameTable,
                                 name: string, p: Pressed, action: Action)
    requires name !in keyTable
    ensures Satisfied(p, Register(keyTable, mouseTable, [name], [], action)) <==> IsPressed(p.keyboard, 0)
  {
    var b := Register(keyTable, mouseTable, [name], [], action);
    assert b.keyboard == [0];
    assert b.mouse == [];
  }
}
