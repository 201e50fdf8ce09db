/**
  The flip example's command sequencer: after the stream is on, each pass of
  `main`'s loop reads a response (which clears `busy`) and, when not busy
  and commands remain, sends the next one of a fixed list and sets `busy`.
  The loop ends after the pass in which Esc is pressed.
*/
module Flip {
  /** What one pass of the loop observes: whether a response arrived, and the key `waitKey` returned. */
  datatype Tick = Tick(responded: bool, key: int)

  /** The key code that ends the loop. */
  const ESC: int := 27

  /** The commands, in the order they are sent. */
  const COMMANDS: seq<string> := ["takeoff", "flip l", "flip r", "flip f", "flip b", "stop", "cw 360", "land"]

  /** The loop's `index` and `busy`, and the commands sent so far. */
  datatype Sequencer = Sequencer(index: nat, busy: bool, sent: seq<string>)

  /** Before the first pass: nothing sent, not busy. */
  const START: Sequencer := Sequencer(0, false, [])

  /** One pass: a response clears `busy`; then, when not busy and a command remains, it is sent. */
  function Act(s: Sequencer, t: Tick): Sequencer {
    var busy := if t.responded then false else s.busy;
    if !busy && s.index < |COMMANDS| then Sequencer(s.index + 1, true, s.sent + [COMMANDS[s.index]])
    else s.(busy := busy)
  }

  /** The sequencer after a run of passes from the start. */
  function Run(ticks: seq<Tick>): Sequencer
    decreases |ticks|
  {
    if ticks == [] then START else Act(Run(ticks[..|ticks| - 1]), ticks[|ticks| - 1])
  }

  /** A run one pass longer. */
  lemma RunStep(ticks: seq<Tick>, i: nat)
    requires i < |ticks|
    ensures Run(ticks[..i + 1]) == Act(Run(ticks[..i]), ticks[i])
  {
    assert ticks[..i + 1][..i] == ticks[..i];
  }

  /** The commands sent are the first `index` of the list, in its order. */
  predicate InOrder(s: Sequencer) {
    s.index <= |COMMANDS| && s.sent == COMMANDS[..s.index]
  }

  /** A pass keeps the commands in list order, one more per send. */
  lemma ActInOrder(s: Sequencer, t: Tick)
    requires InOrder(s)
    ensures InOrder(Act(s, t))
    ensures Act(s, t).index == s.index || Act(s, t).index == s.index + 1
  {
    if Act(s, t).index == s.index + 1 {
      assert COMMANDS[..s.index + 1] == COMMANDS[..s.index] + [COMMANDS[s.index]];
    }
  }

  /** After any run, the commands sent are a prefix of the list: each at most once, in order, at most 8. */
  lemma {:induction false} RunInOrder(ticks: seq<Tick>)
    ensures InOrder(Run(ticks))
    ensures |Run(ticks).sent| == Run(ticks).index <= |COMMANDS|
    decreases |ticks|
  {
    if ticks != [] {
      RunInOrder(ticks[..|ticks| - 1]);
      ActInOrder(Run(ticks[..|ticks| - 1]), ticks[|ticks| - 1]);
    }
  }

  /**
    The gating of one pass: busy without a response, nothing changes; a send
    happens only when not busy after the response, and sets `busy`; a
    response with commands left always sends; with none left, nothing is sent.
  */
  lemma ActGating(s: Sequencer, t: Tick)
    ensures s.busy && !t.responded ==> Act(s, t) == s
    ensures Act(s, t).sent != s.sent <==> (t.responded || !s.busy) && s.index < |COMMANDS|
    ensures Act(s, t).sent != s.sent ==>
      Act(s, t) == Sequencer(s.index + 1, true, s.sent + [COMMANDS[s.index]])
    ensures Act(s, t).sent == s.sent ==> Act(s, t).index == s.index
    ensures Act(s, t).sent == s.sent ==> (Act(s, t).busy <==> s.busy && !t.responded)
    ensures s.index <= |COMMANDS| ==> Act(s, t).busy || Act(s, t).index == |COMMANDS|
  {
  }

  /** The number of passes in which a response arrived. */
  function Responses(ticks: seq<Tick>): (n: nat)
    ensures n <= |ticks|
    decreases |ticks|
  {
    if ticks == [] then 0 else Responses(ticks[..|ticks| - 1]) + if ticks[|ticks| - 1].responded then 1 else 0
  }

  /** Each command after the first waits for a response: sends are at most one more than responses. */
  lemma {:induction false} SendsNeedResponses(ticks: seq<Tick>)
    ensures |Run(ticks).sent| + (if Run(ticks).busy then 0 else 1) <= Responses(ticks) + 1
    decreases |ticks|
  {
    if ticks != [] {
      var before := Run(ticks[..|ticks| - 1]);
      SendsNeedResponses(ticks[..|ticks| - 1]);
      ActGating(before, ticks[|ticks| - 1]);
    }
  }

  /** When every pass brings a response, one command goes out per pass until the list is done. */
  lemma {:induction false} AnsweredRunsThrough(ticks: seq<Tick>)
    requires forall k :: 0 <= k < |ticks| ==> ticks[k].responded
    ensures Run(ticks).index == if |ticks| < |COMMANDS| then |ticks| else |COMMANDS|
    decreases |ticks|
  {
    if ticks != [] {
      var rest := ticks[..|ticks| - 1];
      assert forall k :: 0 <= k < |rest| ==> rest[k] == ticks[k];
      AnsweredRunsThrough(rest);
      ActGating(Run(rest), ticks[|ticks| - 1]);
    }
  }

  /**
    `main`'s loop after the stream is on, over the passes `ticks`; returns
    `index`, `busy`, the commands sent and how many passes were made, which
    stop just after the first Esc.
  */
  method FlipLoop(ticks: seq<Tick>) returns (index: int, busy: bool, sent: seq<string>, passes: nat)
    ensures passes <= |ticks|
    ensures forall k :: 0 <= k < passes - 1 ==> ticks[k].key != ESC
    ensures passes < |ticks| ==> 0 < passes && ticks[passes - 1].key == ESC
    ensures 0 <= index && Sequencer(index, busy, sent) == Run(ticks[..passes])
  {
    index, busy, sent := 0, false, [];
    passes := 0;
    while passes < |ticks|
      invariant 0 <= passes <= |ticks|
      invariant forall k :: 0 <= k < passes ==> ticks[k].key != ESC
      invariant 0 <= index && Sequencer(index, busy, sent) == Run(ticks[..passes])
    {
      var t := ticks[passes];
      ghost var before := Sequencer(index, busy, sent);
      if t.responded {
        busy := false;
      }
      if !busy && index < |COMMANDS| {
        var command := COMMANDS[index];
        index := index + 1;
        sent := sent + [command];
        busy := true;
      }
      assert Sequencer(index, busy, sent) == Act(before, t);
      RunStep(ticks, passes);
      passes := passes + 1;
      if t.key == ESC {
        return;
      }
    }
  }
}
