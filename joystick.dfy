/**
  The DualShock 4 joystick controller: a `Joystick` object keeps the pending
  action command (take off, land, flip) and the current move command, updates
  them from Linux joystick events (`js_event` of `linux/joystick.h`), and
  hands the next command to send out of `GetCmd`.
*/
module JoystickControl {
  import opened Wrappers
  import opened CppString

  type uint8 = x: int | 0 <= x < 256
  type int16 = x: int | -0x8000 <= x < 0x8000

  const MAX_AXIS_VALUE: int := 32767
  const AXIS_SCALE: int := 30

  /** `js_event.type` bits. */
  const JS_EVENT_BUTTON: uint8 := 0x01
  const JS_EVENT_AXIS: uint8 := 0x02
  const JS_EVENT_INIT: uint8 := 0x80

  /** DS4 button numbers. */
  const CROSS: uint8 := 0
  const CIRCLE: uint8 := 1
  const TRIANGLE: uint8 := 2
  const SQUARE: uint8 := 3
  const L1: uint8 := 4
  const R1: uint8 := 5
  const L2: uint8 := 6
  const R2: uint8 := 7

  /** DS4 axis numbers. */
  const L3_X: uint8 := 0
  const L3_Y: uint8 := 1
  const L2_AXIS: uint8 := 2
  const R3_X: uint8 := 3
  const R3_Y: uint8 := 4

  /** One `js_event` (its timestamp is not used). */
  datatype JsEvent = JsEvent(value: int16, kind: uint8, number: uint8)

  /**
    `type &= ~JS_EVENT_INIT`: clears the top bit of the 8-bit type, which
    marks the synthetic events that report the initial state.
  */
  function ClearInit(kind: uint8): (r: uint8)
    ensures r < JS_EVENT_INIT
    ensures kind < JS_EVENT_INIT ==> r == kind
  {
    if kind >= JS_EVENT_INIT then kind - JS_EVENT_INIT else kind
  }

  // ---------------------------------------------------------------------------
  // What one event does

  /** The action a pressed button selects; the other buttons select none. */
  function ButtonAction(number: uint8): (r: Option<string>)
  {
    if number == TRIANGLE then Some("takeoff")
    else if number == CROSS then Some("land")
    else if number == L1 then Some("flip l")
    else if number == R1 then Some("flip r")
    else if number == L2 then Some("flip b")
    else if number == R2 then Some("flip f")
    else None
  }

  /** The action command after pressing button `number`. */
  function PressButton(action: string, number: uint8): string {
    match ButtonAction(number)
    case Some(c) => c
    case None => action
  }

  /** The direction word an axis and a sign select; an unmapped axis selects the empty word. */
  function Direction(number: uint8, positive: bool): (r: string)
  {
    if number == L3_X then (if positive then "cw" else "ccw")
    else if number == L3_Y then (if positive then "down" else "up")
    else if number == R3_X then (if positive then "right" else "left")
    else if number == R3_Y then (if positive then "back" else "forward")
    else ""
  }

  /**
    `round(20 + fabs(value / 32767.f) * 30)` in exact arithmetic: 20 plus
    30 |value| / 32767 rounded half away from zero.
  */
  function Magnitude(value: int16): (n: int)
    ensures 20 <= n <= 20 + AXIS_SCALE
    ensures 2 * Abs((n - 20) * MAX_AXIS_VALUE - AXIS_SCALE * Abs(value)) <= MAX_AXIS_VALUE
  {
    20 + (2 * AXIS_SCALE * Abs(value) + MAX_AXIS_VALUE) / (2 * MAX_AXIS_VALUE)
  }

  /** The move command an axis event sets: cleared by value 0, else "<direction> <magnitude>". */
  function AxisMove(number: uint8, value: int16): string {
    if value == 0 then "" else Direction(number, value > 0) + " " + NatToString(Magnitude(value))
  }

  /** The (action, move) commands after one event of `ProcessEvents`. */
  function Step(action: string, move: string, e: JsEvent): (string, string) {
    var kind := ClearInit(e.kind);
    if kind == JS_EVENT_BUTTON && e.value == 1 then (PressButton(action, e.number), move)
    else if kind == JS_EVENT_AXIS then (action, AxisMove(e.number, e.value))
    else (action, move)
  }

  /** The (action, move) commands after a run of events, processed in order. */
  function Fold(action: string, move: string, events: seq<JsEvent>): (string, string)
    decreases |events|
  {
    if events == [] then (action, move)
    else
      var before := Fold(action, move, events[..|events| - 1]);
      Step(before.0, before.1, events[|events| - 1])
  }

  /** A run one event longer. */
  lemma FoldStep(action: string, move: string, events: seq<JsEvent>, i: nat)
    requires i < |events|
    ensures Fold(action, move, events[..i + 1]) ==
      Step(Fold(action, move, events[..i]).0, Fold(action, move, events[..i]).1, events[i])
  {
    assert events[..i + 1][..i] == events[..i];
  }

  /** `GetCmd` on (action, move): the command returned and the action left behind. */
  function Take(action: string, move: string): (Option<string>, string) {
    if action != [] then (Some(action), [])
    else if move != [] then (Some(move), action)
    else (None, action)
  }

  // ---------------------------------------------------------------------------
  // Properties

  /** Each mapped button selects its command, and a release or an unmapped button changes nothing. */
  lemma ButtonMapping(action: string, move: string, e: JsEvent)
    requires ClearInit(e.kind) == JS_EVENT_BUTTON
    ensures e.value != 1 ==> Step(action, move, e) == (action, move)
    ensures e.value == 1 && e.number == TRIANGLE ==> Step(action, move, e).0 == "takeoff"
    ensures e.value == 1 && e.number == CROSS ==> Step(action, move, e).0 == "land"
    ensures e.value == 1 && e.number == L1 ==> Step(action, move, e).0 == "flip l"
    ensures e.value == 1 && e.number == R1 ==> Step(action, move, e).0 == "flip r"
    ensures e.value == 1 && e.number == L2 ==> Step(action, move, e).0 == "flip b"
    ensures e.value == 1 && e.number == R2 ==> Step(action, move, e).0 == "flip f"
    ensures (e.number == CIRCLE || e.number == SQUARE || e.number > R2) ==> Step(action, move, e) == (action, move)
    ensures Step(action, move, e).1 == move
  {
  }

  /** An axis event leaves the action command alone; value 0 clears the move command on any axis. */
  lemma AxisEvents(action: string, move: string, e: JsEvent)
    requires ClearInit(e.kind) == JS_EVENT_AXIS
    ensures Step(action, move, e).0 == action
    ensures e.value == 0 ==> Step(action, move, e).1 == []
  {
  }

  /**
    The move command an axis event sets: the word for the stick and its sign
    (none for an unmapped axis), a space, and a two-digit step of 20 to 50.
  */
  lemma AxisMoveShape(number: uint8, value: int16)
    requires value != 0
    ensures 20 <= Magnitude(value) <= 50 && |NatToString(Magnitude(value))| == 2
    ensures var m := AxisMove(number, value); |m| >= 3 && m[|m| - 3] == ' ' && DigitsValue(m[|m| - 2..]) == Magnitude(value)
    ensures number == L3_X ==> AxisMove(number, value) == (if value > 0 then "cw" else "ccw") + " " + NatToString(Magnitude(value))
    ensures number == L3_Y ==> AxisMove(number, value) == (if value > 0 then "down" else "up") + " " + NatToString(Magnitude(value))
    ensures number == R3_X ==> AxisMove(number, value) == (if value > 0 then "right" else "left") + " " + NatToString(Magnitude(value))
    ensures number == R3_Y ==> AxisMove(number, value) == (if value > 0 then "back" else "forward") + " " + NatToString(Magnitude(value))
    ensures number !in {L3_X, L3_Y, R3_X, R3_Y} ==> AxisMove(number, value) == " " + NatToString(Magnitude(value))
  {
    var m := AxisMove(number, value);
    var n := Magnitude(value);
    var d := NatToString(n);
    assert |NatToString(n / 10)| == 1;
    assert m == Direction(number, value > 0) + " " + d && |d| == 2;
    assert m[|m| - 2..] == d;
    NatToStringRoundTrip(n);
  }

  /** The full and the smallest deflections give the extreme steps. */
  lemma MagnitudeExtremes()
    ensures Magnitude(32767) == 50 && Magnitude(-32768) == 50
    ensures Magnitude(1) == 20 && Magnitude(-1) == 20
    ensures Magnitude(16384) == 35
  {
  }

  /** The step of a deflection does not depend on its sign. */
  lemma MagnitudeSymmetric(value: int16)
    requires value > -0x8000
    ensures Magnitude(value) == Magnitude(-value as int16)
  {
  }

  /** A larger deflection never gives a smaller step. */
  lemma MagnitudeMonotonic(a: int16, b: int16)
    requires Abs(a) <= Abs(b)
    ensures Magnitude(a) <= Magnitude(b)
  {
  }

  /** An event whose INIT bit is set is handled like the same event without it. */
  lemma InitBitIgnored(action: string, move: string, e: JsEvent)
    requires e.kind < JS_EVENT_INIT
    ensures Step(action, move, e.(kind := e.kind + JS_EVENT_INIT)) == Step(action, move, e)
  {
  }

  /** Processing two runs one after the other is processing their concatenation. */
  lemma {:induction false} FoldAppend(action: string, move: string, xs: seq<JsEvent>, ys: seq<JsEvent>)
    ensures Fold(action, move, xs + ys) == var m := Fold(action, move, xs); Fold(m.0, m.1, ys)
    decreases |ys|
  {
    if ys == [] {
      assert xs + ys == xs;
    } else {
      assert (xs + ys)[..|xs + ys| - 1] == xs + ys[..|ys| - 1];
      FoldAppend(action, move, xs, ys[..|ys| - 1]);
    }
  }

  /** Events that are not button presses never change the action command. */
  lemma {:induction false} OnlyPressesSetAction(action: string, move: string, events: seq<JsEvent>)
    requires forall i :: 0 <= i < |events| ==> !(ClearInit(events[i].kind) == JS_EVENT_BUTTON && events[i].value == 1)
    ensures Fold(action, move, events).0 == action
    decreases |events|
  {
    if events != [] {
      OnlyPressesSetAction(action, move, events[..|events| - 1]);
    }
  }

  /** Events that are not axis events never change the move command. */
  lemma {:induction false} OnlyAxesSetMove(action: string, move: string, events: seq<JsEvent>)
    requires forall i :: 0 <= i < |events| ==> ClearInit(events[i].kind) != JS_EVENT_AXIS
    ensures Fold(action, move, events).1 == move
    decreases |events|
  {
    if events != [] {
      OnlyAxesSetMove(action, move, events[..|events| - 1]);
    }
  }

  /** After a run of events, the move command is the one set by the last axis event, or unchanged when there is none. */
  lemma {:induction false} LastAxisEventWins(action: string, move: string, events: seq<JsEvent>, k: nat)
    requires k < |events| && ClearInit(events[k].kind) == JS_EVENT_AXIS
    requires forall i :: k < i < |events| ==> ClearInit(events[i].kind) != JS_EVENT_AXIS
    ensures Fold(action, move, events).1 == AxisMove(events[k].number, events[k].value)
  {
    var head, tail := events[..k + 1], events[k + 1..];
    assert events == head + tail;
    FoldAppend(action, move, head, tail);
    assert head[..|head| - 1] == events[..k];
    var m := Fold(action, move, head);
    OnlyAxesSetMove(m.0, m.1, tail);
  }

  /** A pending action is handed out once and then cleared; what follows is the move command, or nothing. */
  lemma ActionHandedOutOnce(action: string, move: string)
    requires action != []
    ensures Take(action, move) == (Some(action), [])
    ensures Take(Take(action, move).1, move).0 == if move != [] then Some(move) else None
  {
  }

  /** Without a pending action, the move command is handed out on every call and nothing changes. */
  lemma MoveRepeats(move: string)
    requires move != []
    ensures Take([], move) == (Some(move), [])
  {
  }

  /** With neither command set there is nothing to send. */
  lemma NothingToSend()
    ensures Take([], []) == (None, [])
  {
  }

  // ---------------------------------------------------------------------------
  // The object

  class Joystick {
    var actionCmd: string
    var moveCmd: string

    /** A controller with no command pending (the input device itself is not modelled). */
    constructor ()
      ensures actionCmd == [] && moveCmd == []
    {
      actionCmd := [];
      moveCmd := [];
    }

    /** A button press: the mapped buttons set the action command. */
    method ProcessButtonEvent(number: uint8)
      modifies this`actionCmd
      ensures actionCmd == PressButton(old(actionCmd), number)
    {
      if number == TRIANGLE {
        actionCmd := "takeoff";
      } else if number == CROSS {
        actionCmd := "land";
      } else if number == L1 {
        actionCmd := "flip l";
      } else if number == R1 {
        actionCmd := "flip r";
      } else if number == L2 {
        actionCmd := "flip b";
      } else if number == R2 {
        actionCmd := "flip f";
      }
    }

    /** An axis event: value 0 clears the move command, otherwise it becomes the direction and the step. */
    method ProcessAxisEvent(number: uint8, value: int16)
      modifies this`moveCmd
      ensures moveCmd == AxisMove(number, value)
    {
      if value == 0 {
        moveCmd := [];
        return;
      }
      var cmd: string := [];
      if number == L3_X {
        cmd := if value > 0 then "cw" else "ccw";
      } else if number == L3_Y {
        cmd := if value > 0 then "down" else "up";
      } else if number == R3_X {
        cmd := if value > 0 then "right" else "left";
      } else if number == R3_Y {
        cmd := if value > 0 then "back" else "forward";
      }
      var val := Magnitude(value);
      moveCmd := cmd + " " + NatToString(val);
    }

    /** Reads the queued events, `events`, to the end and processes each in turn. */
    method ProcessEvents(events: seq<JsEvent>)
      modifies this
      ensures (actionCmd, moveCmd) == Fold(old(actionCmd), old(moveCmd), events)
    {
      var i := 0;
      while i < |events|
        invariant 0 <= i <= |events|
        invariant (actionCmd, moveCmd) == Fold(old(actionCmd), old(moveCmd), events[..i])
      {
        var event := events[i];
        ghost var before := (actionCmd, moveCmd);
        var kind := ClearInit(event.kind);
        if kind == JS_EVENT_BUTTON && event.value == 1 {
          ProcessButtonEvent(event.number);
        } else if kind == JS_EVENT_AXIS {
          ProcessAxisEvent(event.number, event.value);
        }
        assert (actionCmd, moveCmd) == Step(before.0, before.1, event);
        FoldStep(old(actionCmd), old(moveCmd), events, i);
        i := i + 1;
      }
      assert events[..i] == events;
    }

    /** The command to send now: the pending action, which it clears, else the move command, else none. */
    method GetCmd() returns (cmd: Option<string>)
      modifies this`actionCmd
      ensures (cmd, actionCmd) == Take(old(actionCmd), moveCmd)
    {
      var taken: string := [];
      if actionCmd != [] {
        actionCmd, taken := taken, actionCmd;
        return Some(taken);
      }
      if moveCmd != [] {
        return Some(moveCmd);
      }
      return None;
    }
  }
}
