/**
 The pressed-state tracker: raw input events folded into one pressed map per
 device class. The classification is deliberately asymmetric for the mouse:
 only a "hold" event (the first event after a click completes) counts as a
 press, while both "down" and "up" count as a release.
 */
module Tracker {
  import opened Codes

  /** The kinds of event the hook delivers. Kinds the tracker does not react
      to (mouse move, drag, wheel, hook start and stop, ...) are `OtherKind`. */
  datatype EventKind =
    | KeyDown
    | KeyHold
    | KeyUp
    | MouseHold
    | MouseUp
    | MouseDown
    | OtherKind(raw: nat)

  datatype Event = Event(kind: EventKind, code: Code)

  datatype Device = Keyboard | Mouse

  /** Pressed state of one device class; a code absent from the map has never
      been seen and reads as not pressed. */
  type PressedMap = map<Code, bool>

  predicate IsPressed(m: PressedMap, c: Code)
  {
    c in m && m[c]
  }

  /** What an event does to the tracked state: overwrite the entry of its code
      in one device's map, or nothing. */
  datatype Effect = Set(device: Device, pressed: bool) | Ignore

  function Classify(kind: EventKind): Effect
  {
    match kind
    case KeyDown | KeyHold => Set(Keyboard, true)
    case KeyUp => Set(Keyboard, false)
    case MouseHold => Set(Mouse, true)
    case MouseUp | MouseDown => Set(Mouse, false)
    case OtherKind(_) => Ignore
  }

  /** The classification, stated kind by kind: which device an event touches
      and whether it means pressed, and that exactly the unknown kinds are
      ignored. */
  lemma ClassifyByKind(kind: EventKind)
    ensures Classify(kind).Ignore? <==> kind.OtherKind?
    ensures Classify(kind).Set? ==>
              (Classify(kind).device == Keyboard <==> kind in {KeyDown, KeyHold, KeyUp})
    ensures Classify(kind).Set? && Classify(kind).device == Keyboard ==>
              (Classify(kind).pressed <==> kind != KeyUp)
    ensures Classify(kind).Set? && Classify(kind).device == Mouse ==>
              (Classify(kind).pressed <==> kind == MouseHold)
  {
  }

  /** Both pressed maps; they are the tracker's whole state. */
  datatype Pressed = Pressed(keyboard: PressedMap, mouse: PressedMap)
  {
    function Of(d: Device): PressedMap
    {
      match d
      case Keyboard => keyboard
      case Mouse => mouse
    }
  }

  /** Folds one event into the pressed maps: last write wins for the event's
      code on the event's device, and nothing else changes. */
  function Track(p: Pressed, ev: Event): (r: Pressed)
    ensures ev.kind in {KeyDown, KeyHold} ==>
              r.keyboard == p.keyboard[ev.code := true] && r.mouse == p.mouse
    ensures ev.kind == KeyUp ==>
              r.keyboard == p.keyboard[ev.code := false] && r.mouse == p.mouse
    ensures ev.kind == MouseHold ==>
              r.mouse == p.mouse[ev.code := true] && r.keyboard == p.keyboard
    ensures ev.kind in {MouseUp, MouseDown} ==>
              r.mouse == p.mouse[ev.code := false] && r.keyboard == p.keyboard
    ensures ev.kind.OtherKind? ==> r == p
  {
    match Classify(ev.kind)
    case Set(Keyboard, b) => p.(keyboard := p.keyboard[ev.code := b])
    case Set(Mouse, b) => p.(mouse := p.mouse[ev.code := b])
    case Ignore => p
  }

  /** Reading a code after an event: the event's own code on the event's
      device reads as the event's value, every other (device, code) pair reads
      as before. */
  lemma TrackReadBack(p: Pressed, ev: Event, d: Device, c: Code)
    ensures Classify(ev.kind).Set? && Classify(ev.kind).device == d && c == ev.code ==>
              IsPressed(Track(p, ev).Of(d), c) == Classify(ev.kind).pressed
    ensures !(Classify(ev.kind).Set? && Classify(ev.kind).device == d && c == ev.code) ==>
              IsPressed(Track(p, ev).Of(d), c) == IsPressed(p.Of(d), c)
  {
  }

  /** A mouse "down" alone never leaves its button pressed. */
  lemma MouseDownReleases(p: Pressed, c: Code)
    ensures !IsPressed(Track(p, Event(MouseDown, c)).mouse, c)
  {
  }

  /** What the tracker last recorded for `c` on device `d` along a stream of
      events: the value of the latest event touching that pair, if any. */
  datatype Last = Unseen | Seen(pressed: bool)

  function LastRecorded(events: seq<Event>, d: Device, c: Code): Last
  {
    if |events| == 0 then Unseen
    else
      var ev := events[|events| - 1];
      match Classify(ev.kind)
      case Set(d', b) =>
        if d' == d && ev.code == c then Seen(b) else LastRecorded(events[..|events| - 1], d, c)
      case Ignore => LastRecorded(events[..|events| - 1], d, c)
  }

  /** Folds a stream of events into the pressed maps, in order. */
  function TrackAll(p: Pressed, events: seq<Event>): Pressed
  {
    if |events| == 0 then p
    else Track(TrackAll(p, events[..|events| - 1]), events[|events| - 1])
  }

  /** After any stream of events, a (device, code) pair reads as pressed
      exactly when the latest event for it said pressed; a pair no event
      touched keeps its initial reading. */
  lemma {:induction false} TrackAllReflectsLast(p: Pressed, events: seq<Event>, d: Device, c: Code)
    ensures LastRecorded(events, d, c).Seen? ==>
              IsPressed(TrackAll(p, events).Of(d), c) == LastRecorded(events, d, c).pressed
    ensures LastRecorded(events, d, c).Unseen? ==>
              IsPressed(TrackAll(p, events).Of(d), c) == IsPressed(p.Of(d), c)
  {
    if |events| > 0 {
      var init := events[..|events| - 1];
      TrackAllReflectsLast(p, init, d, c);
      TrackReadBack(TrackAll(p, init), events[|events| - 1], d, c);
    }
  }
}
