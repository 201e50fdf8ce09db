# CTello in Dafny

A model of CTello, a C++ driver for the DJI Ryze Tello drone, and of its
example programs, with proofs about what they do. The driver talks to the
drone over UDP:

- one socket sends text commands ("command", "takeoff", "flip l", …) to
  192.168.10.1:8889 and receives the responses;
- a second socket, bound to port 8890, receives the telemetry the drone
  pushes, a string of `name:value;` segments.

The model covers the following parts:

- **Both revisions of the `ctello::Tello` client** (`tello.dfy` and
  `tello_legacy.dfy`).
  - The current revision uses two sockets and a 32-byte response buffer.
  - The first revision uses one socket and a 100-byte C-string buffer.
  - Each is a class whose fields are the sockets and the addresses.
  - Each models `Bind`, `FindTello`, `ShowTelloInfo`, `SendCommand` and
    `ReceiveResponse` (plus `GetState` in the current revision).
  - The current revision also models the log level taken from
    `SPDLOG_LEVEL`.
  - The network is a scripted socket (`net.dfy`): which `sendto` calls
    fail, and what each `recvfrom` finds. The socket also records the
    datagrams sent and the number of polls.
- **The C++ string operations** the driver relies on (`cstring.dfy`):
  `npos`, the `size_t` wrap-around, `find`, `find_last_not_of`, `substr`,
  `erase` and `std::to_string`.
- **Trimming of trailing whitespace** (`trim.dfy`), which both revisions
  apply to every response.
- **The telemetry splitter** `ShowStatus` and the state monitor's main loop
  (`telemetry.dfy`).
- **The DualShock 4 joystick controller** (`joystick.dfy`). Its `Joystick`
  object holds a pending action command and a move command, driven by
  Linux `js_event`s.
- **The follow example** (`follow.dfy`):
  - the search for light pixels over a frame given as a 2-D array;
  - steering towards the target;
  - the loop that sends one command at a time.
- **The flip example's command sequencer** (`flip.dfy`).

Loops that wait for an answer without limit (`FindTello`, the busy-waits of
`ShowTelloInfo`) are proved against the network script. A ghost parameter
names the poll at which the script first answers, and the loop is proved
to stop there.

## Model

| member | source | states |
|---|---|---|
| CppString.SizeT | src/ctello.cpp:280 | the result lies in `size_t`'s range and differs from the input by a multiple of 2^64, so it is the input reduced modulo 2^64 (`npos + 1` becomes 0); values in range are kept |
| CppString.Find | src/ctello_state.cpp:35-37 | `find` yields `npos` or an index at or after the start that holds the character |
| CppString.FindFirst | src/ctello_state.cpp:35-37 | `find` skips no occurrence, and yields `npos` only when the character does not occur from the start on |
| CppString.FindLastNotOf | src/ctello.cpp:280 | `find_last_not_of` yields the last position outside the set; it yields `npos` exactly when every character is in the set |
| CppString.Substr | src/ctello_state.cpp:36-38 | `substr(pos, n)` is the slice of `min(n, size - pos)` characters from `pos` |
| CppString.Erase | src/ctello.cpp:280 | `erase(pos)` keeps exactly the first `pos` characters |
| CppString.NatToString | examples/follow.cpp:115 | `std::to_string` of a non-negative number gives decimal digits without a leading zero |
| CppString.NatToStringRoundTrip | examples/follow.cpp:115 | the decimal text reads back as the number it was made from |
| CppString.NatToStringInjective | src/ctello_joystick.cpp:173 | different numbers are printed differently |
| CppString.IntToString | examples/follow.cpp:115-132 | `std::to_string(int)` prints a non-negative step as its plain digits, and starts with '-' exactly when the number is negative |
| CppString.Chars | src/ctello.cpp:278 | a string built from a byte buffer has one character per byte, with the same code |
| CppString.Octets | src/ctello.cpp:251-252 | the message vector has one byte per character of the command |
| CppString.OctetsOfChars | src/ctello.cpp:278 | turning received bytes into text and back loses nothing |
| CppString.CharsOfOctets | src/ctello.cpp:251-252 | octet text sent as bytes reads back as the same text |
| Net.RecvFrom | src/ctello.cpp:137-158 | `recvfrom` yields -1 exactly when nothing is queued, otherwise at most the buffer size of the datagram's bytes, and then the sender fills the address argument |
| Trim.TrimTrailing | src/ctello.cpp:280 | the trimmed text is a prefix of the input that does not end in ' ', '\n', '\r' or '\t', and only those characters were cut |
| Trim.TrimIsUnique | src/ctello.cpp:280 | any prefix with those two properties is the trimmed text |
| Trim.AllTrailingTrimsToEmpty | src/ctello.cpp:280 | all-whitespace text gives `npos`, `npos + 1` wraps to 0, and the result is the present but empty string |
| Trim.TrimIdempotent | ctello.cpp:194 | trimming twice is trimming once |
| Trim.TrimKeepsCleanText | src/ctello.cpp:280 | text that does not end in whitespace is left unchanged |
| Tello.Subscript | src/ctello.cpp:62 | `operator[]` yields the stored value, or inserts and yields the value-initialised level for a missing key, keeping every other entry |
| Tello.GetLogLevelFromEnv | src/ctello.cpp:42-63 | an unset variable gives `info`; a known name gives its table entry; any other name gives `trace` (the level whose value is 0) |
| Tello.LogLevelNames | src/ctello.cpp:45-53 | `info`, `off` and `err` each come from exactly one name; `trace` comes from "trace" or from an unknown name |
| Tello.Reply | src/ctello.cpp:273-280 | a receive of fewer than 1 byte (an error or an empty datagram) gives none; otherwise the text is a prefix of the received bytes, at most the buffer size long, that does not end in whitespace and from which only whitespace was cut |
| Tello.WhitespaceReplyIsEmpty | src/ctello.cpp:278-280 | an all-whitespace datagram gives a present, empty response |
| Tello.CleanReplyIsWhole | src/ctello.cpp:278-280 | a datagram that fits the buffer and does not end in whitespace arrives unchanged |
| Tello.FirstAnswerUnique | src/ctello.cpp:217-221 | the poll at which a busy-wait stops is determined by the network |
| Tello.HandshakeUnbounded | src/ctello.cpp:215-222 | for every n there is a network whose first answer comes only at poll n, so the handshake has no attempt limit |
| Tello.InfoQueries | src/ctello.cpp:224-247 | the four queries are "sn?", "sdk?", "wifi?" and "battery?", in that order; the first goes to the current server address |
| Tello.Tello.constructor | src/ctello.cpp:163-170 | the two sockets are the ones opened; the log level comes from `SPDLOG_LEVEL`; the port field is the default 9000; the server address is not yet set |
| Tello.Tello.SendCommand | src/ctello.cpp:249-265 | exactly the command's bytes go out as one datagram to the server address; the result is false exactly when `sendto` fails |
| Tello.Tello.ReceiveResponse | src/ctello.cpp:267-285 | one poll of the command socket with a 32-byte buffer; the result is `Reply`; the server address becomes the sender of any datagram |
| Tello.Tello.GetState | src/ctello.cpp:287-305 | one poll of the state socket with a 1024-byte buffer; the result is `Reply` |
| Tello.Tello.AwaitResponse | src/ctello.cpp:229-230 | the busy-wait polls until the first poll that answers, and stops there with that answer's text |
| Tello.Tello.FindTello | src/ctello.cpp:215-222 | sends "command" at least once and exactly once per poll, up to and including the first poll that answers; the earlier record of sends is kept |
| Tello.Tello.Query | src/ctello.cpp:228-231 | one query sends its command and then waits for the next answer |
| Tello.Tello.ShowTelloInfo | src/ctello.cpp:224-247 | four queries go out in order, each after the answer to the previous one; it returns the four answers |
| Tello.Tello.Bind | src/ctello.cpp:178-213 | the order is command-port bind, then address resolution, then state-port bind; the result is true exactly when all three succeed; each failure leaves the later steps undone; the port field changes only after the first bind succeeds; on success the sends added are one "command" per poll up to the first answer, the first to the resolved address, then sn?, sdk?, wifi?, battery? |
| TelloLegacy.BoolToInt | ctello.cpp:71-74 | a `bool` stored into the `int` of the pair is 1 for true and 0 for false |
| TelloLegacy.LegacySendTo | ctello.cpp:57-75 | `SendTo` reports 0 exactly when `sendto` fails, and the datagram is recorded in either case |
| TelloLegacy.SendToNeverMinusOne | ctello.cpp:57-75 | the helper's status is never -1, even when `sendto` fails |
| TelloLegacy.SendFailureUnseen | ctello.cpp:170-179 | a concrete failing send whose status is not the -1 that `SendCommand` tests for |
| TelloLegacy.Received | ctello.cpp:84-89 | `recvfrom` stores exactly the first min(length, 100) bytes of the datagram |
| TelloLegacy.BufferAfter | ctello.cpp:84-89 | after a receive the zero-initialised 100-byte buffer holds the received bytes followed by NULs |
| TelloLegacy.CStringLength | ctello.cpp:98 | `strlen` is the index of the first NUL, when the buffer holds one |
| TelloLegacy.BufferOverread | ctello.cpp:84-98 | a 100-byte datagram without NUL leaves the buffer without a terminator |
| TelloLegacy.BufferText | ctello.cpp:98 | the text is the received bytes before the first NUL, at most 100 of them |
| TelloLegacy.BufferTextAgrees | ctello.cpp:98 | whenever there is a terminator, `BufferText` is exactly what `response = buffer` copies |
| TelloLegacy.ShortDatagramTerminated | ctello.cpp:84-98 | a datagram shorter than 100 bytes always leaves a terminator |
| TelloLegacy.LegacyText | ctello.cpp:194 | the response is the C-string text with trailing whitespace trimmed |
| TelloLegacy.LegacyReply | ctello.cpp:181-196 | no response exactly when `recvfrom` fails; otherwise the datagram's `BufferText` with only trailing whitespace cut (a prefix of it that does not end in whitespace, from which only whitespace was removed) |
| TelloLegacy.EmptyDatagramAnswers | ctello.cpp:190-195 | an empty datagram already counts as a (present, empty) response |
| TelloLegacy.InfoQueries | ctello.cpp:145-168 | the four queries, in order, with the first one going to the destination address |
| TelloLegacy.Tello.constructor | ctello.cpp:106-109 | one open socket and an unset destination |
| TelloLegacy.Tello.SendCommand | ctello.cpp:170-179 | the datagram is handed to `sendto` and the result is true whether or not the send fails |
| TelloLegacy.Tello.ReceiveResponse | ctello.cpp:181-196 | one poll with the 100-byte buffer; a failure gives none, and the -1 test never fires since the status is 0 or 1; a datagram gives its `BufferText`, trimmed; the destination becomes the sender of any datagram |
| TelloLegacy.Tello.AwaitResponse | ctello.cpp:150-151 | polls until the first poll with a datagram, and returns its text |
| TelloLegacy.Tello.FindTello | ctello.cpp:136-143 | sends "command" once per poll, up to and including the first poll with a datagram |
| TelloLegacy.Tello.Query | ctello.cpp:149-152 | one query: send, then wait for the next datagram |
| TelloLegacy.Tello.ShowTelloInfo | ctello.cpp:145-168 | four queries in order, each after the previous answer; returns the four answers |
| TelloLegacy.Tello.Bind | ctello.cpp:111-134 | bind, then resolution; true exactly when both succeed; the first failure stops everything after it; on success the sends added are one "command" per poll up to the first datagram, the first to the resolved address, then sn?, sdk?, wifi?, battery? |
| JoystickControl.ClearInit | src/ctello_joystick.cpp:48 | masking clears the INIT bit and keeps any type without it |
| JoystickControl.Magnitude | src/ctello_joystick.cpp:171-172 | the step is 20 + 30·abs(v)/32767 rounded to the nearest integer, between 20 and 50 |
| JoystickControl.ButtonMapping | src/ctello_joystick.cpp:101-135 | TRIANGLE, CROSS, L1, R1, L2 and R2 map to "takeoff", "land", "flip l", "flip r", "flip b" and "flip f"; other buttons and releases change nothing; a button never changes the move command |
| JoystickControl.AxisEvents | src/ctello_joystick.cpp:140-144 | an axis event never changes the action command, and value 0 clears the move command on any axis |
| JoystickControl.AxisMoveShape | src/ctello_joystick.cpp:146-173 | a nonzero value sets the word, a space and the two-digit step n from 20 to 50: L3_X "cw"/"ccw", L3_Y "down"/"up", R3_X "right"/"left", R3_Y "back"/"forward" for positive/negative values, and no word for any other axis |
| JoystickControl.MagnitudeExtremes | src/ctello_joystick.cpp:30-31 | full deflection gives 50, the smallest gives 20, and half gives 35 |
| JoystickControl.MagnitudeSymmetric | src/ctello_joystick.cpp:171-172 | the step does not depend on the sign of the deflection |
| JoystickControl.MagnitudeMonotonic | src/ctello_joystick.cpp:171-172 | a larger deflection never gives a smaller step |
| JoystickControl.InitBitIgnored | src/ctello_joystick.cpp:48 | an initial-state event is handled like the ordinary event |
| JoystickControl.FoldAppend | src/ctello_joystick.cpp:43-59 | processing two runs of events in turn is processing their concatenation |
| JoystickControl.OnlyPressesSetAction | src/ctello_joystick.cpp:50-57 | only button presses change the action command |
| JoystickControl.OnlyAxesSetMove | src/ctello_joystick.cpp:50-57 | only axis events change the move command |
| JoystickControl.LastAxisEventWins | src/ctello_joystick.cpp:138-174 | after a run, the move command is the one set by the last axis event |
| JoystickControl.ActionHandedOutOnce | src/ctello_joystick.cpp:61-68 | a pending action is returned once and cleared, and the move command or nothing follows |
| JoystickControl.MoveRepeats | src/ctello_joystick.cpp:70-73 | without an action, the move command is returned on each call and is never cleared |
| JoystickControl.NothingToSend | src/ctello_joystick.cpp:75 | with neither command set there is none |
| JoystickControl.Joystick.constructor | src/ctello_joystick.cpp:38-41 | no command pending |
| JoystickControl.Joystick.ProcessButtonEvent | src/ctello_joystick.cpp:101-136 | the action command becomes the pressed button's command, or stays |
| JoystickControl.Joystick.ProcessAxisEvent | src/ctello_joystick.cpp:138-174 | the move command becomes the axis event's command, or empty for value 0 |
| JoystickControl.Joystick.ProcessEvents | src/ctello_joystick.cpp:43-59 | the state after the loop is the fold of the events over the state before, in order |
| JoystickControl.Joystick.GetCmd | src/ctello_joystick.cpp:61-76 | the action command first (clearing it), else the move command (kept), else none |
| Follow.IsTarget | examples/follow.cpp:62-66 | a pixel is a target exactly when each of its three channels exceeds 250 |
| Follow.FirstMax | examples/follow.cpp:89-92 | the index is of a maximum, and every earlier element is strictly smaller (the first maximum) |
| Follow.RowCountPositive | examples/follow.cpp:75-80 | a row's count is positive exactly when the row holds a target pixel |
| Follow.ColCountPositive | examples/follow.cpp:72-82 | a column's count is positive exactly when the column holds a target pixel |
| Follow.CountRow | examples/follow.cpp:75-82 | the inner loop counts the row's targets and adds each one to its column's count |
| Follow.FindTarget | examples/follow.cpp:68-98 | the result is `TargetOf` of the frame: the first fullest column and row, or none when both are 0 |
| Follow.NoTargetGivesNone | examples/follow.cpp:93-96 | a frame without target pixels gives none |
| Follow.FoundTargetIsFullest | examples/follow.cpp:83-92 | a found point is inside the frame, in the first fullest row and the first fullest column |
| Follow.FoundTargetIsLit | examples/follow.cpp:93-97 | a found point's row and column both hold target pixels |
| Follow.OriginTargetLost | examples/follow.cpp:93-96 | a frame whose only target pixel is at (0, 0) gives none |
| Follow.TargetOfIntended | examples/follow.cpp:93-97 | none exactly when the frame has no target pixel, and otherwise a lit point inside the frame |
| Follow.TargetAgreement | examples/follow.cpp:93-97 | the fullest row is empty exactly when there are no targets, and a found target implies there are targets |
| Follow.IntendedAgrees | examples/follow.cpp:93-97 | wherever the code finds a target, it is the intended one |
| Follow.RawStep | examples/follow.cpp:111 | the raw step is 0.3·v truncated toward zero, with the sign of v |
| Follow.ClampBounds | examples/follow.cpp:112 | the step is at least `min_step`, and at most `max_step` when the bounds are ordered; a raw step below `min_step` becomes `min_step` |
| Follow.Steer | examples/follow.cpp:100-136 | the returned velocity is target minus position |
| Follow.LeftAndUpMoveMinStep | examples/follow.cpp:108-134 | a "left" or "up" command always carries `min_step`, whatever the distance, since its truncated raw step is never above 0 |
| Follow.SteerCommand | examples/follow.cpp:108-134 | the command is a direction word and a step; the axis is horizontal exactly when abs(vx) > abs(vy) (ties go vertical); "right" exactly for vx > 0 and "up" exactly for vy < 0; the target distance plays no part |
| Follow.FollowStepRange | examples/follow.cpp:111-132 | with the example's bounds the command reads back as its word and a step of 20 to 60 |
| Follow.PassesAt | examples/follow.cpp:181-224 | the loop stops after the first pass in which Esc is pressed, and not before |
| Follow.SentAreSteering | examples/follow.cpp:195-209 | every command sent is the steering command for some observed target, and a pass sends at most one |
| Follow.SendsNeedResponses | examples/follow.cpp:188-209 | each command after the first needs a response since the previous one |
| Follow.Gating | examples/follow.cpp:188-209 | while busy and without a response nothing is sent; a response followed by a target always sends |
| Follow.FollowLoop | examples/follow.cpp:180-224 | the loop's `busy` and the commands it sends are `Run` over the passes up to the first Esc |
| Flip.ActInOrder | examples/flip.cpp:65-71 | a pass keeps the commands sent equal to a prefix of the list, with at most one more |
| Flip.RunInOrder | examples/flip.cpp:47-49 | the commands sent are the first `index` of the list, in order, each once, at most 8 |
| Flip.ActGating | examples/flip.cpp:58-71 | busy without a response changes nothing; a send happens exactly when (response or not busy) and commands remain; it sets `busy` and advances `index` by one |
| Flip.SendsNeedResponses | examples/flip.cpp:58-71 | the sends exceed the responses by at most one |
| Flip.AnsweredRunsThrough | examples/flip.cpp:65-67 | when every pass brings a response, one command goes out per pass until all 8 are sent |
| Flip.FlipLoop | examples/flip.cpp:49-79 | the loop's `index`, `busy` and sends are `Run` over the passes, which end just after the first Esc |
| Telemetry.ToInt | src/ctello_state.cpp:39 | a `size_t` stored into the `int` index keeps every value up to `INT_MAX` |
| Telemetry.ParseStep | src/ctello_state.cpp:35-39 | on well-formed text, one turn reads the name before the first ':' and the value up to the next ';', and resumes after that ';' |
| Telemetry.SegmentAt | src/ctello_state.cpp:35-39 | a segment `name:value;` with no ':' in the name and no ';' in the value reads as that row and then whatever follows |
| Telemetry.ParseSeparable | src/ctello_state.cpp:35-38 | no name read holds ':', and no value read holds ';' |
| Telemetry.ShowStatus | src/ctello_state.cpp:27-48 | on well-formed text the loop ends, and its rows are exactly the (name, value) pairs of the segments, in order, with no extra row for the final ';' |
| Telemetry.WrittenReadsBack | src/ctello_state.cpp:33-39 | rows written out as segments, with separator-free names and values, read back as those rows |
| Telemetry.FieldsRoundTrip | src/ctello_status.cpp:33-39 | joining separator-free rows as `name:value;` and splitting gives back the rows, one row per segment |
| Telemetry.SeparatorsInside | src/ctello_status.cpp:35-38 | a value may contain ':' and a name may contain ';' |
| Telemetry.Next | src/ctello_status.cpp:35-39 | the next `begin` is 0 exactly when the rest has no ':', or no ';' after it |
| Telemetry.MalformedTailRestarts | src/ctello_status.cpp:35-39 | a segment missing ':' or ';' sends `begin` back to 0 through the `npos + 1` wrap, and is not well formed |
| Telemetry.MalformedNeverEnds | src/ctello_state.cpp:33-39 | on text that is not well formed, `begin` returns to 0 without ever reaching the end, so the loop never ends |
| Telemetry.Monitor | src/ctello_state.cpp:58-64 | the loop only polls the state socket, once per pass, and shows at most one table per poll |
| Telemetry.Pass | src/ctello_state.cpp:60-63 | a pass polls once and shows at most one table; a stuck loop does nothing more |
| Telemetry.Show | src/ctello_state.cpp:60-63 | no state shows nothing; a well-formed state shows its rows; a malformed one leaves the loop stuck in `ShowStatus` |
| Telemetry.MonitorStuckStays | src/ctello_state.cpp:58-64 | once stuck, no more polls and no more tables |
| Telemetry.SilenceShowsNothing | src/ctello_state.cpp:58-64 | with no state datagrams the loop polls on and shows nothing |
| Telemetry.ShownAreStates | src/ctello_state.cpp:60-63 | every table shown is the rows of a state that `GetState` returned during the run |
| Telemetry.MonitorState | src/ctello_state.cpp:58-64 | the loop over the client's state socket does what `Monitor` says |
| Telemetry.Turn | src/ctello_state.cpp:60-63 | one turn of the loop polls the state socket once and then shows what `Pass` says |
| Telemetry.ShowState | src/ctello_state.cpp:60-63 | the body of a pass: `ShowStatus` only when `GetState` returned a state |

## Left out

- Real sockets are not modelled: `socket`, `bind`, `getaddrinfo`, `sendto`, `recvfrom` and `close`.
  - They are a scripted network instead. `getaddrinfo` is the `resolves` argument of `Bind`, and the resolved address is the (IP, port) pair.
  - `sockaddr` layout and port byte order (`htons` versus a plain cast) are not modelled. A port is an integer.
- `FROM_PORT` and `TO_PORT`, which the first revision's `Bind` uses, are defined neither in `ctello.cpp` nor in its `ctello.h` (which defines `IP` and `PORT`). They are parameters of `TelloLegacy.Tello.Bind`.
- Not modelled: `sleep` in `FindTello`, spdlog output and formatting (`set_pattern`, `set_level`, the `debug`/`info`/`error` messages), and console output. The answers of `ShowTelloInfo` are returned instead of printed.
- The busy-waits of `FindTello`, `ShowTelloInfo`, `AwaitResponse` and the example programs do not terminate in general.
  - They are modelled for networks that do answer: a ghost parameter names the answering poll. `HandshakeUnbounded` shows that no attempt bound exists.
  - The waits for "streamon" and "takeoff" in the example programs before their main loops are not modelled.
- The infinite `main` loops of the examples are modelled over a finite list of passes (`Tick`s). The state monitor's is modelled over a number of passes.
- The joystick `main` loop is left out because it is device I/O and a 20 ms sleep: it calls `ProcessEvents`, sends any `GetCmd` result, and sleeps. Also left out: `open`/`read` of `/dev/input/js0`, and the event timestamp.
  - Joystick.ProcessEvents: the events that `read` would return are a parameter, read until the queue is empty.
- OpenCV is left out: `VideoCapture`, `imshow`, `waitKey`, `resize`, `DrawMaxRowAndCol` and `DrawVelocity`.
  - The frame is a 2-D array of BGR byte triples.
  - The key `waitKey` returns is part of each `Tick`.
  - The follow loop's `FindTarget` result is part of each `Tick` too.
- Floating point:
  - JoystickControl.Magnitude is exact rounding of 20 + 30·|v|/32767, not single-precision arithmetic.
  - Follow.RawStep is `trunc(3·v/10)`, not the float product with 0.3.
- The printing of `ShowStatus` is left out: `system("clear")`, the `setw` table and its padding. The rows it would print are returned.
- Telemetry.ShowStatus: text longer than `INT_MAX` is not modelled, since `int begin` would overflow.
  - Its well-formedness requirement is what the loop needs to end. `MalformedNeverEnds` proves that it never ends otherwise.
  - The state monitor checks well-formedness to report "stuck". The C++ program would hang instead.
- `src/ctello_status.cpp`'s `ShowStatus` is the same loop as `src/ctello_state.cpp`'s, so one method models both. Its `main` calls `GetStatus`, which `include/ctello.h` does not declare, so that `main` is not part of this model.
- Not part of this model: `src/ctello_stream.cpp` (video only), `tello_cli.cpp` (an interactive shell around stdin), and the root `ctello.h`.
  - The inline `ReceiveResponse` in `ctello.h` conflicts with `ctello.cpp`.
  - `include/ctello.h` contributes only its constants.
- The destructor (`close` of the sockets) is not modelled.
- TelloLegacy.Tello.ReceiveResponse: a 100-byte datagram with no NUL byte leaves the buffer unterminated, and what `response = buffer` then reads is undefined in C++. The model gives that datagram its `BufferText` (all 100 bytes) instead; see the second finding.

## Findings

| source | as written | input that shows it | evidently intended | confidence | as-written member | corrected member |
|---|---|---|---|---|---|---|
| ctello.cpp:57-75 | `SendTo` returns `{false, …}`/`{true, …}` into a `std::pair<int, …>`, so its status is 0 or 1; `SendCommand` (170-179) tests it against -1, so it never reports a failed send | a socket whose first `sendto` fails: `SendCommand("command")` returns true | `SendCommand` returns false exactly when `sendto` fails, as the current revision does | high, not executed | TelloLegacy.SendFailureUnseen | Tello.Tello.SendCommand |
| ctello.cpp:84-98 | the 100-byte buffer is passed whole to `recvfrom`, then read with `response = buffer` as a C string | a datagram of 100 bytes none of which is NUL: the buffer has no terminator, and `strlen` reads past it | the text is the received bytes up to the first NUL or the end of what was received | high, not executed | TelloLegacy.BufferOverread | TelloLegacy.BufferText |
| examples/follow.cpp:93-96 | `FindTarget` treats indices (0, 0) as "no target" | a 1x1 frame holding one white pixel: the target at (0, 0) is reported as none | none exactly when the frame holds no light pixel | medium, not executed | Follow.OriginTargetLost | Follow.TargetOfIntended |

