/**
  The state monitor: each state datagram the drone sends is a string of
  `name:value;` segments, and `ShowStatus` walks it with `find`/`substr`,
  one table row per segment. The printing is left out; the rows it would
  print are returned instead.
*/
module Telemetry {
  import opened Wrappers
  import opened CppString
  import opened Net
  import T = Tello

  /** One row of the table: the text before a segment's ':' and the text after it. */
  datatype Field = Field(name: string, value: string)

  /** The largest `int`, the type of the loop's `begin`. */
  const INT_MAX: int := 0x7fff_ffff

  /** The conversion of a `size_t` value to a 32-bit `int` (two's complement). */
  function ToInt(x: int): (r: int)
    requires 0 <= x < SIZE_T_MODULUS
    ensures x <= INT_MAX ==> r == x
    ensures -INT_MAX - 1 <= r <= INT_MAX
  {
    if x <= INT_MAX then x
    else
      var m := x % 0x1_0000_0000;
      if m > INT_MAX then m - 0x1_0000_0000 else m
  }

  // ---------------------------------------------------------------------------
  // What the loop reads

  /**
    What the loop reads from `begin` on: for each segment, the text before
    its first ':' and the text between that ':' and the next ';', the next
    segment starting after that ';'. `None` when from some segment on there
    is no ':', or no ';' after it: then the loop does not run out (see
    `MalformedNeverEnds`).
  */
  function Parse(s: string, begin: nat): Option<seq<Field>>
    requires Fits(s)
    decreases |s| - begin
  {
    if begin >= |s| then Some([])
    else
      var split := Find(s, ':', begin);
      if split == NPOS then None
      else
        var end := Find(s, ';', split);
        if end == NPOS then None
        else
          var rest := Parse(s, end + 1);
          if rest.None? then None else Some([Field(s[begin..split], s[split + 1..end])] + rest.value)
  }

  /** The text a run of rows is sent as: `name:value;` for each one. */
  function Join(fields: seq<Field>): string {
    if fields == [] then "" else fields[0].name + ":" + fields[0].value + ";" + Join(fields[1..])
  }

  /** Rows the format can carry: no ':' in a name, no ';' in a value. */
  predicate Separable(fields: seq<Field>) {
    forall k :: 0 <= k < |fields| ==> ':' !in fields[k].name && ';' !in fields[k].value
  }

  /** The first segment the loop reads at `begin` of a well-formed text, and where it goes on. */
  lemma ParseStep(s: string, begin: nat, split: int, end: int)
    requires Fits(s) && begin < |s| && Parse(s, begin).Some?
    requires split == Find(s, ':', begin) && end == Find(s, ';', split)
    ensures begin <= split < end < |s| && Parse(s, end + 1).Some?
    ensures Parse(s, begin).value == [Field(s[begin..split], s[split + 1..end])] + Parse(s, end + 1).value
  {
  }

  /**
    One segment: when `begin` is followed by a name free of ':', a ':' at
    `split`, a value free of ';' and a ';' at `end`, the loop reads that
    segment and goes on after the ';'.
  */
  lemma SegmentAt(s: string, begin: nat, split: nat, end: nat)
    requires Fits(s) && begin <= split < end < |s| && s[split] == ':' && s[end] == ';'
    requires ':' !in s[begin..split] && ';' !in s[split + 1..end]
    ensures Parse(s, end + 1).Some? ==>
      Parse(s, begin) == Some([Field(s[begin..split], s[split + 1..end])] + Parse(s, end + 1).value)
    ensures Parse(s, end + 1).None? ==> Parse(s, begin).None?
  {
    SegmentFinds(s, begin, split, end);
    SegmentUnfolds(s, begin, split, end);
  }

  /** Where `find` stops in such a segment. */
  lemma SegmentFinds(s: string, begin: nat, split: nat, end: nat)
    requires Fits(s) && begin <= split < end < |s| && s[split] == ':' && s[end] == ';'
    requires ':' !in s[begin..split] && ';' !in s[split + 1..end]
    ensures Find(s, ':', begin) == split && Find(s, ';', split) == end
  {
    SliceFree(s, begin, split, s[begin..split], ':');
    SliceFree(s, split + 1, end, s[split + 1..end], ';');
    FindFirst(s, ':', begin);
    FindFirst(s, ';', split);
  }

  lemma SegmentUnfolds(s: string, begin: nat, split: nat, end: nat)
    requires Fits(s) && begin <= split < end < |s|
    requires Find(s, ':', begin) == split && Find(s, ';', split) == end
    ensures Parse(s, end + 1).Some? ==>
      Parse(s, begin) == Some([Field(s[begin..split], s[split + 1..end])] + Parse(s, end + 1).value)
    ensures Parse(s, end + 1).None? ==> Parse(s, begin).None?
  {
  }

  /** The row read from one segment holds no ':' in its name and no ';' in its value. */
  lemma RowSeparable(s: string, begin: nat, split: int, end: int)
    requires Fits(s) && begin <= split < end < |s|
    requires split == Find(s, ':', begin) && end == Find(s, ';', split)
    ensures Separable([Field(s[begin..split], s[split + 1..end])])
  {
    FindFirst(s, ':', begin);
    FindFirst(s, ';', split);
    SliceHasNo(s, begin, split, ':');
    SliceHasNo(s, split + 1, end, ';');
    assert [Field(s[begin..split], s[split + 1..end])][0] == Field(s[begin..split], s[split + 1..end]);
  }

  /** A character at none of a slice's positions is not in it. */
  lemma SliceHasNo(s: string, lo: nat, hi: nat, c: char)
    requires lo <= hi <= |s| && forall i :: lo <= i < hi ==> s[i] != c
    ensures c !in s[lo..hi]
  {
    var t := s[lo..hi];
    assert forall i :: 0 <= i < |t| ==> t[i] == s[lo + i];
  }

  /** The first field of a well-formed text: separable, and followed by the fields read after its ';'. */
  lemma ParseHead(s: string, begin: nat, fields: seq<Field>) returns (f: Field, next: nat, rest: seq<Field>)
    requires Fits(s) && begin < |s| && Parse(s, begin) == Some(fields)
    ensures begin < next <= |s| && Parse(s, next) == Some(rest) && fields == [f] + rest
    ensures Separable([f])
  {
    var split := Find(s, ':', begin);
    var end := Find(s, ';', split);
    ParseStep(s, begin, split, end);
    RowSeparable(s, begin, split, end);
    f, next, rest := Field(s[begin..split], s[split + 1..end]), end + 1, Parse(s, end + 1).value;
  }

  /** No name the loop reads holds a ':', and no value a ';'. */
  lemma {:induction false} ParseSeparable(s: string, begin: nat, fields: seq<Field>)
    requires Fits(s) && Parse(s, begin) == Some(fields)
    ensures Separable(fields)
    decreases |s| - begin
  {
    if begin < |s| {
      var f, next, rest := ParseHead(s, begin, fields);
      ParseSeparable(s, next, rest);
      SeparableCons(f, rest);
    }
  }

  lemma SeparableCons(f: Field, fields: seq<Field>)
    requires Separable([f]) && Separable(fields)
    ensures Separable([f] + fields)
  {
    assert [f][0] == f;
    forall k | 0 <= k < |[f] + fields|
      ensures ':' !in ([f] + fields)[k].name && ';' !in ([f] + fields)[k].value
    {
      if k > 0 {
        assert ([f] + fields)[k] == fields[k - 1];
      }
    }
  }

  // ---------------------------------------------------------------------------
  // ShowStatus

  /**
    The parsing loop of `ShowStatus`, with the unsigned arithmetic of
    `size_t` and the conversions between it and the `int` index as C++
    performs them. It only ends on well-formed text, which is why that is
    required.
  */
  method ShowStatus(status: string) returns (rows: seq<Field>)
    requires |status| <= INT_MAX && Parse(status, 0).Some?
    ensures rows == Parse(status, 0).value
  {
    var begin: int := 0;
    rows := [];
    while SizeT(begin) < |status|
      invariant 0 <= begin <= |status| && Parse(status, begin).Some?
      invariant rows + Parse(status, begin).value == Parse(status, 0).value
      decreases |status| - begin
    {
      var split := Find(status, ':', begin);
      var name := Substr(status, begin, SizeT(split - begin));
      var end := Find(status, ';', split);
      LoopBounds(status, begin, split, end);
      var value := Substr(status, SizeT(split + 1), SizeT(end - split - 1));
      LoopRead(status, begin, rows, split, end, name, value);
      NextBegin(end);
      begin := ToInt(SizeT(end + 1));
      rows := rows + [Field(name, value)];
    }
  }

  lemma LoopBounds(status: string, begin: nat, split: int, end: int)
    requires |status| <= INT_MAX && begin < |status| && Parse(status, begin).Some?
    requires split == Find(status, ':', begin) && end == Find(status, ';', split)
    ensures begin <= split < end < |status|
  {
    ParseStep(status, begin, split, end);
  }

  /** One turn of the loop reads the row the rest of the text starts with and moves past its ';'. */
  lemma LoopRead(status: string, begin: nat, rows: seq<Field>, split: int, end: int, name: string, value: string)
    requires |status| <= INT_MAX && begin < |status| && Parse(status, begin).Some? && Parse(status, 0).Some?
    requires rows + Parse(status, begin).value == Parse(status, 0).value
    requires split == Find(status, ':', begin) && end == Find(status, ';', split) && begin <= split < end
    requires name == Substr(status, begin, SizeT(split - begin))
    requires value == Substr(status, SizeT(split + 1), SizeT(end - split - 1))
    ensures end < |status| && Parse(status, end + 1).Some?
    ensures (rows + [Field(name, value)]) + Parse(status, end + 1).value == Parse(status, 0).value
  {
    ParseStep(status, begin, split, end);
    ReadRow(status, begin, split, end, name, value);
    Shift(rows, Field(name, value), Parse(status, begin).value, Parse(status, end + 1).value, Parse(status, 0).value);
  }

  lemma ReadRow(status: string, begin: int, split: int, end: int, name: string, value: string)
    requires 0 <= begin <= split < end < |status| <= INT_MAX
    requires name == Substr(status, begin, SizeT(split - begin))
    requires value == Substr(status, SizeT(split + 1), SizeT(end - split - 1))
    ensures Field(name, value) == Field(status[begin..split], status[split + 1..end])
  {
  }

  lemma NextBegin(end: int)
    requires 0 <= end < INT_MAX
    ensures ToInt(SizeT(end + 1)) == end + 1
  {
  }

  lemma Shift<X>(done: seq<X>, x: X, rest: seq<X>, after: seq<X>, all: seq<X>)
    requires done + rest == all && rest == [x] + after
    ensures (done + [x]) + after == all
  {
    assert (done + [x]) + after == done + ([x] + after);
  }

  // ---------------------------------------------------------------------------
  // Properties of the format

  /**
    The tail of `s` from `p` is `fields` written out: each row's name, a
    ':', its value and a ';', one after the other up to the end of `s`.
  */
  predicate WrittenAt(s: string, p: nat, fields: seq<Field>)
    decreases fields
  {
    if fields == [] then p == |s|
    else
      var split := p + |fields[0].name|;
      var end := split + 1 + |fields[0].value|;
      end < |s| && s[p..split] == fields[0].name && s[split] == ':' &&
      s[split + 1..end] == fields[0].value && s[end] == ';' &&
      WrittenAt(s, end + 1, fields[1..])
  }

  /** A tail that equals `Join(fields)` is `fields` written out. */
  lemma {:induction false} JoinWritten(s: string, p: nat, fields: seq<Field>)
    requires p <= |s| && s[p..] == Join(fields)
    ensures WrittenAt(s, p, fields)
    decreases |fields|
  {
    if fields != [] {
      var split := p + |fields[0].name|;
      var end := split + 1 + |fields[0].value|;
      JoinHead(s, p, fields, split, end);
      JoinWritten(s, end + 1, fields[1..]);
    }
  }

  /** The first row written out where the tail from `p` equals `Join(fields)`. */
  lemma JoinHead(s: string, p: nat, fields: seq<Field>, split: nat, end: nat)
    requires p <= |s| && s[p..] == Join(fields) && fields != []
    requires split == p + |fields[0].name| && end == split + 1 + |fields[0].value|
    ensures end < |s| && s[p..split] == fields[0].name && s[split] == ':'
    ensures s[split + 1..end] == fields[0].value && s[end] == ';'
    ensures s[end + 1..] == Join(fields[1..])
  {
    var f := fields[0];
    var u := f.name + ":" + f.value + ";";
    assert s[p..] == u + Join(fields[1..]);
    assert |u| == |f.name| + |f.value| + 2;
    assert s[p..p + |u|] == u;
    assert s[p + |u|..] == s[p..][|u|..];
    assert u[..|f.name|] == f.name && u[|f.name|] == ':';
    assert u[|f.name| + 1..|u| - 1] == f.value && u[|u| - 1] == ';';
  }

  /** A character absent from a slice is at none of its positions. */
  lemma SliceFree(s: string, lo: nat, hi: nat, t: string, c: char)
    requires lo <= hi <= |s| && s[lo..hi] == t && c !in t
    ensures forall i :: lo <= i < hi ==> s[i] != c
  {
    forall i | lo <= i < hi
      ensures s[i] != c
    {
      assert s[i] == t[i - lo];
    }
  }

  /** Separable rows written out from `p` on read back, from `p`, as those rows. */
  lemma {:induction false} WrittenReadsBack(s: string, p: nat, fields: seq<Field>)
    requires Fits(s) && Separable(fields) && WrittenAt(s, p, fields)
    ensures Parse(s, p) == Some(fields)
    decreases |fields|
  {
    if fields != [] {
      var split := p + |fields[0].name|;
      var end := split + 1 + |fields[0].value|;
      SeparableTail(fields);
      WrittenReadsBack(s, end + 1, fields[1..]);
      ReadsFirstRow(s, p, split, end, fields);
    }
  }

  /** Written-out rows whose tail, after the first row's ';' at `end`, reads back read back whole. */
  lemma ReadsFirstRow(s: string, p: nat, split: nat, end: nat, fields: seq<Field>)
    requires Fits(s) && fields != [] && Separable(fields) && WrittenAt(s, p, fields)
    requires split == p + |fields[0].name| && end == split + 1 + |fields[0].value|
    requires Parse(s, end + 1) == Some(fields[1..])
    ensures Parse(s, p) == Some(fields)
  {
    SeparableTail(fields);
    ReadsRowThen(s, p, split, end, fields[0], fields[1..]);
    assert [fields[0]] + fields[1..] == fields;
  }

  /** A segment holding `f` followed by text that reads as `rest` reads as `f` and then `rest`. */
  lemma ReadsRowThen(s: string, p: nat, split: nat, end: nat, f: Field, rest: seq<Field>)
    requires Fits(s) && p <= split < end < |s| && s[split] == ':' && s[end] == ';'
    requires s[p..split] == f.name && s[split + 1..end] == f.value
    requires ':' !in f.name && ';' !in f.value
    requires Parse(s, end + 1) == Some(rest)
    ensures Parse(s, p) == Some([f] + rest)
  {
    SegmentAt(s, p, split, end);
  }

  lemma SeparableTail(fields: seq<Field>)
    requires Separable(fields) && fields != []
    ensures Separable(fields[1..]) && ':' !in fields[0].name && ';' !in fields[0].value
  {
    forall k | 0 <= k < |fields[1..]|
      ensures ':' !in fields[1..][k].name && ';' !in fields[1..][k].value
    {
      assert fields[1..][k] == fields[k + 1];
    }
  }

  /**
    Separable rows written out read back unchanged, one row per segment: a
    trailing ';' closes the last row and adds no empty one.
  */
  lemma FieldsRoundTrip(fields: seq<Field>)
    requires Separable(fields) && Fits(Join(fields))
    ensures Parse(Join(fields), 0) == Some(fields)
  {
    var s := Join(fields);
    assert s[0..] == s;
    JoinWritten(s, 0, fields);
    WrittenReadsBack(s, 0, fields);
  }

  /** A value runs to the next ';' and may hold ':'; a name runs to the first ':' and may hold ';'. */
  lemma SeparatorsInside()
    ensures Parse("a:b:c;", 0) == Some([Field("a", "b:c")])
    ensures Parse("x;y:1;", 0) == Some([Field("x;y", "1")])
  {
    var s, t := [Field("a", "b:c")], [Field("x;y", "1")];
    assert Join(s) == "a:b:c;" && Join(t) == "x;y:1;";
    FieldsRoundTrip(s);
    FieldsRoundTrip(t);
  }

  // ---------------------------------------------------------------------------
  // Text that is not well formed

  /** The `begin` the loop moves to from `begin`, as C++ computes it. */
  function Next(s: string, begin: nat): (r: nat)
    requires |s| <= INT_MAX
    ensures 0 <= r <= |s|
    ensures r == 0 <==> (Find(s, ':', begin) == NPOS || Find(s, ';', Find(s, ':', begin)) == NPOS)
  {
    ToInt(SizeT(Find(s, ';', Find(s, ':', begin)) + 1))
  }

  /** Where `begin` is after `k` turns of the loop from `begin`. */
  function After(s: string, begin: nat, k: nat): (r: nat)
    requires |s| <= INT_MAX
    decreases k
  {
    if k == 0 then begin else After(s, Next(s, begin), k - 1)
  }

  /** A segment without a ':', or without a ';' after it, sends `begin` back to 0, as `npos + 1` wraps. */
  lemma MalformedTailRestarts(s: string, begin: nat)
    requires |s| <= INT_MAX && begin < |s|
    requires Find(s, ':', begin) == NPOS || Find(s, ';', Find(s, ':', begin)) == NPOS
    ensures Next(s, begin) == 0 && Parse(s, begin).None?
  {
  }

  /**
    On text that is not well formed the loop never ends: from any `begin`
    it goes back to 0 while the loop condition still holds.
  */
  lemma {:induction false} MalformedNeverEnds(s: string, begin: nat) returns (k: nat)
    requires |s| <= INT_MAX && Parse(s, begin).None?
    ensures k > 0 && After(s, begin, k) == 0
    ensures forall j: nat :: j < k ==> After(s, begin, j) < |s|
    decreases |s| - begin
  {
    var split := Find(s, ':', begin);
    if split == NPOS || Find(s, ';', split) == NPOS {
      k := 1;
      assert After(s, begin, 1) == After(s, 0, 0) == 0;
    } else {
      var next := Next(s, begin);
      assert next == Find(s, ';', split) + 1;
      var k' := MalformedNeverEnds(s, next);
      k := k' + 1;
      assert After(s, begin, k) == After(s, next, k');
      forall j: nat | j < k
        ensures After(s, begin, j) < |s|
      {
        if j > 0 {
          assert After(s, begin, j) == After(s, next, j - 1);
        }
      }
    }
  }

  // ---------------------------------------------------------------------------
  // The state monitor's loop

  /**
    `passes` turns of `main`'s loop from the state socket `sock`: the tables
    shown, whether the loop is stuck in a `ShowStatus` that never ends, and
    the socket afterwards. A pass without state shows nothing.
  */
  function Monitor(sock: Socket, passes: nat): (r: (seq<seq<Field>>, bool, Socket))
    ensures r.2 == sock.(polls := r.2.polls) && sock.polls <= r.2.polls <= sock.polls + passes
    ensures |r.0| <= r.2.polls - sock.polls
  {
    if passes == 0 then ([], false, sock) else Pass(Monitor(sock, passes - 1))
  }

  /**
    One turn from (shown, stuck, socket): when not stuck, `GetState` polls
    once and what it returns is shown as `Show` says.
  */
  function Pass(before: (seq<seq<Field>>, bool, Socket)): (r: (seq<seq<Field>>, bool, Socket))
    ensures before.1 ==> r == before
    ensures !before.1 ==> r.2 == before.2.(polls := before.2.polls + 1) && |r.0| <= |before.0| + 1
  {
    if before.1 then before
    else
      var shown := Show(before.0, T.Reply(before.2, T.STATE_BUFFER_SIZE));
      (shown.0, shown.1, before.2.(polls := before.2.polls + 1))
  }

  /**
    What one state does to the tables shown so far: none adds nothing; a
    state the loop runs out on adds its rows; any other leaves the loop
    stuck in `ShowStatus`.
  */
  function Show(shown: seq<seq<Field>>, state: Option<string>): (r: (seq<seq<Field>>, bool))
    requires state.Some? ==> Fits(state.value)
    ensures r.1 <==> state.Some? && Parse(state.value, 0).None?
    ensures !r.1 ==> r.0 == shown + (if state.Some? then [Parse(state.value, 0).value] else [])
    ensures r.1 ==> r.0 == shown
  {
    if state.None? then (shown, false)
    else
      var rows := Parse(state.value, 0);
      if rows.Some? then (shown + [rows.value], false) else (shown, true)
  }

  /** Once stuck, the loop shows nothing more and polls no more. */
  lemma {:induction false} MonitorStuckStays(sock: Socket, i: nat, passes: nat)
    requires i <= passes && Monitor(sock, i).1
    ensures Monitor(sock, passes) == Monitor(sock, i)
    decreases passes - i
  {
    if i < passes {
      MonitorStuckStays(sock, i, passes - 1);
      var before := Monitor(sock, passes - 1);
      assert before.1 && Monitor(sock, passes) == Pass(before);
    }
  }

  /** With no state datagram left to read, the loop polls on and shows nothing. */
  lemma {:induction false} SilenceShowsNothing(sock: Socket, passes: nat)
    requires |sock.incoming| <= sock.polls
    ensures Monitor(sock, passes) == ([], false, sock.(polls := sock.polls + passes))
  {
    if passes > 0 {
      SilenceShowsNothing(sock, passes - 1);
    }
  }

  /** Every table shown is the rows of a state `GetState` returned. */
  lemma {:induction false} ShownAreStates(sock: Socket, passes: nat)
    ensures forall t :: t in Monitor(sock, passes).0 ==>
      exists k :: sock.polls <= k < Monitor(sock, passes).2.polls &&
        T.Reply(sock.(polls := k), T.STATE_BUFFER_SIZE).Some? &&
        Parse(T.Reply(sock.(polls := k), T.STATE_BUFFER_SIZE).value, 0) == Some(t)
  {
    if passes > 0 {
      ShownAreStates(sock, passes - 1);
    }
  }

  /** `main`'s loop over `passes` turns: a state is shown only when `GetState` returns one. */
  method MonitorState(tello: T.Tello, passes: nat) returns (shown: seq<seq<Field>>, stuck: bool)
    modifies tello`stateSock
    ensures (shown, stuck, tello.stateSock) == Monitor(old(tello.stateSock), passes)
  {
    ghost var sock := tello.stateSock;
    shown, stuck := [], false;
    var i := 0;
    while i < passes && !stuck
      invariant 0 <= i <= passes
      invariant (shown, stuck, tello.stateSock) == Monitor(sock, i)
    {
      shown, stuck := Turn(tello, shown);
      i := i + 1;
    }
    if stuck {
      MonitorStuckStays(sock, i, passes);
    }
  }

  /** One turn of `main`'s loop while not stuck: `GetState`, then `ShowState` on what it returned. */
  method Turn(tello: T.Tello, shown: seq<seq<Field>>) returns (shown': seq<seq<Field>>, stuck: bool)
    modifies tello`stateSock
    ensures (shown', stuck, tello.stateSock) == Pass((shown, false, old(tello.stateSock)))
  {
    var state := tello.GetState();
    shown', stuck := ShowState(shown, state);
  }

  /** The body of `main`'s loop after `GetState`: `ShowStatus` on the state, if any. */
  method ShowState(shown: seq<seq<Field>>, state: Option<string>) returns (shown': seq<seq<Field>>, stuck: bool)
    requires state.Some? ==> |state.value| <= T.STATE_BUFFER_SIZE
    ensures (shown', stuck) == Show(shown, state)
  {
    shown', stuck := shown, false;
    if state.Some? {
      if Parse(state.value, 0).None? {
        stuck := true;
      } else {
        var rows := ShowStatus(state.value);
        shown' := shown + [rows];
      }
    }
  }
}
