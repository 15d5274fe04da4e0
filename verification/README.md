# WandererRotator SDK — a Dafny model

This project models the core of the WandererRotator SDK: the C API that scans
for Wanderer rotators on USB serial ports, opens them, queries and configures
them, and moves them. Its parts are:

- the registry of devices (`g_devices`) and the entry points that work on it;
- the protocol engine: the command encoders, the five-attempt handshake, the
  five-field status query and the move listener with its overshoot return move;
- the serial port: open/closed state, `Write`, and the delimiter-framed `Read`.

Everything is stated over immutable values. A `Device` record carries the
conversation with its instrument as a `Link`. A `Link` is a script of what
each `write()` returns and what each framed read delivers. An exhausted script
stands for a device that went quiet: writes fail and reads time out with no
bytes. `float` values are exact reals. The C `(int)` conversion is truncation
toward zero (`Angles.Trunc`), and `fmodf` keeps the dividend's sign
(`Angles.FModTurn`).

Modules, one per source unit:

- `Text`: C-string views of buffers, `strstr`, `printf("%d")`, and the
  `sscanf` `%d`/`%f` conversions.
- `Angles`: truncation, `fmodf` and the shortest-rotation normalisation.
- `SerialLine`: the serial port (`WandererRotatorSerialPort.cpp`).
- `SdkTypes` and `DeviceState`: the public header and the `Device` record.
- `Protocol`: `WandererRotatorProtocol.cpp`.
- `Sdk`: `WandererRotatorSDK.cpp`.

Where the header comments and the code disagree, the model follows the code:

- `Read` stops at the first stop byte and returns the partial count on a timeout.
- The status probe ends in a newline.
- `StopMoveListener` only clears a flag; it does not end a waiting listener.
- The shortest delta of `WRRotatorMoveTo` lies in [-180, 180), not (-180, 180].
  A half turn either way comes out as -180.

## Model

| member | source | states |
|---|---|---|
| Text.ContainsIffOccurs | WandererRotatorProtocol.cpp:92 | the `strstr` test used by the handshake holds exactly when the tag occurs at some index of the reply |
| Text.ScanIntRoundTrip | WandererRotatorProtocol.cpp:156-160 | `%d` reads back exactly the integer `printf("%d")` wrote, whatever non-digit (here the field stop `A`) follows |
| Text.ScanFloatTenths | WandererRotatorProtocol.cpp:187-192 | `%f` reads a `<whole>.<digit>` backlash back as the decimal it spells, whose value is exactly the tenths over ten |
| Angles.FModTurn | WandererRotatorSDK.cpp:532 | `fmodf(x, 360)` lies strictly within one turn, has the sign of `x`, and names the same direction as `x` |
| Angles.ShortestDelta | WandererRotatorSDK.cpp:529-533 | the normalised delta lies in [-180, 180) and differs from target minus current by whole turns |
| Angles.ShortestDeltaUnique | WandererRotatorSDK.cpp:529-533 | any value in [-180, 180) naming the same rotation as target minus current equals the computed delta |
| Angles.HalfTurnIsNegative | WandererRotatorSDK.cpp:532-533 | a difference of exactly +180 or -180 degrees normalises to -180 |
| Angles.ZeroDeltaIffSameDirection | WandererRotatorSDK.cpp:536-539 | the delta is zero exactly when target and current name the same direction, in both directions of the equivalence |
| Angles.ShortestDeltaIsShortest | WandererRotatorSDK.cpp:529-533 | no rotation that reaches the target direction has a smaller magnitude than the computed delta |
| SerialLine.Open | WandererRotatorSerialPort.cpp:39-145 | the port opens exactly when `open`, `tcgetattr` and `tcsetattr` all succeed, and every failure leaves it closed |
| SerialLine.Close | WandererRotatorSerialPort.cpp:147-154 | after `Close` the port is closed, and a closed port is left as it was |
| SerialLine.CloseIdempotent | WandererRotatorSerialPort.cpp:147-154 | closing twice is closing once, and a closed descriptor is -1 |
| SerialLine.Write | WandererRotatorSerialPort.cpp:156-167 | a closed port refuses without touching the line; otherwise the data goes out and the result is true iff `write()` took every byte |
| SerialLine.Read | WandererRotatorSerialPort.cpp:169-213 | the count is at most `maxlen - 1` and the buffer holds NUL right after it; the bytes are stored verbatim and in order, the rest of the buffer is untouched, and no byte past a stop byte is consumed; a stop byte within reach ends the read right after it, otherwise the read ends when the buffer or the source runs out (timeout) |
| SdkTypes.Code | WandererRotatorSDK.h:41-48 | every error code lies in 0..5 and only `WR_SUCCESS` is 0 |
| SdkTypes.CodesAreDistinct | WandererRotatorSDK.h:41-48 | each error reads back from its code, and the codes 0..5 are exactly the members |
| SdkTypes.MasksPartitionAll | WandererRotatorSDK.h:53-58 | the five masks are single bits, pairwise disjoint, and their union is `MASK_ROTATOR_ALL` |
| SdkTypes.ToUnsigned32 | WandererRotatorSDK.h:62 | storing an `int` firmware number in the `unsigned int` field reduces it modulo 2^32: unchanged when non-negative, plus 2^32 when negative |
| DeviceState.NewDevice | WandererRotatorDevice.h:41-74 | a fresh device has every number 0, step rate 50, status all zero, no listener and no overshoot phase, and is well formed |
| Protocol.BacklashCommandMeaning | WandererRotatorProtocol.cpp:243-246 | the backlash command is 1600000 plus the backlash in tenths of a degree truncated toward zero; 0.0 gives 1600000 and 2.5 gives 1600025 |
| Protocol.ReverseCommandMeaning | WandererRotatorProtocol.cpp:248-251 | the reverse command reads as 1700001 for any non-zero flag and 1700000 otherwise, and ends in a newline |
| Protocol.SendCommand | WandererRotatorProtocol.cpp:37-58 | with no port or a closed port nothing is written and the result is false; otherwise the command is written and the result is true iff the whole command went out; only the line changes |
| Protocol.Attempts | WandererRotatorProtocol.cpp:78-104 | the retry loop succeeds iff some attempt identifies the instrument after only unanswered ones; it writes one probe per attempt it makes, returns right after the first identifying reply, stops at once after a probe that cannot be written, and writes all of them when none is answered |
| Protocol.QueryHandshake | WandererRotatorProtocol.cpp:60-105 | on a closed port it fails without writing; otherwise it succeeds iff one of the first five attempts identifies the instrument, and it sends one probe per attempt up to the first identifying reply, the first failed write, or the fifth attempt |
| Protocol.HandshakeGivesUp | WandererRotatorProtocol.cpp:78-104 | when five probes go out and none is answered with the tag, the handshake fails after writing exactly five |
| Protocol.HandshakeStopsOnWriteFailure | WandererRotatorProtocol.cpp:84-88 | a probe that cannot be written ends the handshake at once with failure, after that one probe |
| Protocol.HandshakeStopsAtFirstAnswer | WandererRotatorProtocol.cpp:81-97 | when attempt k is the first to identify the instrument, the handshake succeeds after writing exactly k + 1 probes |
| Protocol.ParseModel | WandererRotatorProtocol.cpp:136-151 | the reply parses iff it starts with `WandererRotator` followed by a character other than `A`; the model is the following run of non-`A` characters, one to seven of them |
| Protocol.ParseModelRoundTrip | WandererRotatorProtocol.cpp:136-151 | the identification reply of any valid model name parses back to that name |
| Protocol.StepsPerDegreeFor | WandererRotatorProtocol.cpp:215-230 | the steps per degree are always the previous value or one of 1142, 1155, 1199 |
| Protocol.StepsForKnownModels | WandererRotatorProtocol.cpp:215-230 | "Mini" maps to 1142, "Lite" to 1155, "Lite V2" to 1199, and "Pro" keeps the previous value |
| Protocol.DecodeStatusRoundTrip | WandererRotatorProtocol.cpp:136-213 | the five replies an instrument sends decode to the model, firmware, angle, backlash and direction flag it encoded; the backlash comes back to the tenth |
| Protocol.ReadStatus | WandererRotatorProtocol.cpp:133-236 | the reading half succeeds iff all five fields arrive and parse; on success the fields are stored and the derived values follow; on failure steps and status are untouched |
| Protocol.QueryStatus | WandererRotatorProtocol.cpp:107-241 | it writes the probe on an open port; it succeeds iff the probe went out whole and all five fields parse; on success the model, numbers, backlash in truncated tenths, steps from the model, 360 steps per degree per revolution and the position in degrees are stored; on failure the steps and status are untouched; nothing else changes |
| Protocol.QueryStatusRoundTrip | WandererRotatorProtocol.cpp:107-241 | a status query on an instrument that answers with five well-formed fields stores exactly what it sent |
| Protocol.QueryStatusWellFormed | WandererRotatorProtocol.cpp:215-236 | a status query keeps the device well formed: known steps per degree and a revolution size that matches them |
| Protocol.StartMoveListener | WandererRotatorProtocol.cpp:362-380 | starting a listener leaves the flag set and changes nothing else |
| Protocol.StopMoveListener | WandererRotatorProtocol.cpp:382-392 | stopping only clears the flag |
| Protocol.ReturnAngle | WandererRotatorProtocol.cpp:312 | the return move is the overshoot angle against the direction of the last move |
| Protocol.ListenerStep | WandererRotatorProtocol.cpp:254-360 | after both frames parse, the last rotation, mechanical angle and position are stored; phase 1 sends the return move and moves to phase 2 with a new listener, or ends in phase 0 and not moving when the send fails; phase 2 ends in phase 0 and not moving; no phase ends not moving; a timeout or bad frame ends the listener with motion and phase untouched |
| Protocol.ListenerFailureKeepsMotion | WandererRotatorProtocol.cpp:273-355 | a timeout or malformed frame only ends the listener; `moving` and the overshoot phase are kept |
| Protocol.ListenerStepWellFormed | WandererRotatorProtocol.cpp:298-355 | one listener run keeps the device well formed |
| Protocol.RunListener | WandererRotatorProtocol.cpp:321-328 | when the chain of listeners ends (after at most one restart, the return move's) no listener is running |
| Protocol.RunListenerWellFormed | WandererRotatorProtocol.cpp:298-355 | so does the whole chain of listeners |
| Protocol.OvershootSettles | WandererRotatorProtocol.cpp:301-343 | an overshoot whose return move goes out settles after two listener runs, in phase 0, not moving, with exactly the return command sent |
| Sdk.Rotators | WandererRotatorSDK.cpp:156-181 | the rotators found are exactly the candidates that open and answer the handshake: every one of them is kept, nothing else is, and discovery order is preserved |
| Sdk.Registered | WandererRotatorSDK.cpp:157-174 | the entry kept for a rotator remembers its node, holds a closed port, and is well formed |
| Sdk.RegisterFrom | WandererRotatorSDK.cpp:108-174 | entries go under consecutive ids from the current count, in order, until 32 are used; other ids are untouched and no other id appears |
| Sdk.Scan | WandererRotatorSDK.cpp:70-197 | a null output pointer or a failed enumeration is reported without touching the registry; otherwise ids 0..n-1 go to the first n rotators in discovery order, n is the smaller of their number and 32, the ids are reported in order, other entries stay, and well-formedness is kept |
| Sdk.Connect | WandererRotatorSDK.cpp:214-246 | success iff the port opens, the handshake answers and the status query succeeds, exactly when the port ends up open; on success the device holds the opened port, the line has the status probe after the handshake, and the fields the query decoded are stored; a failure after opening closes the port again and leaves the cached status and steps per degree alone |
| Sdk.ConnectKeepsWellFormed | WandererRotatorSDK.cpp:214-246 | a well-formed device stays well formed whichever stage of opening fails |
| Sdk.OpenDevice | WandererRotatorSDK.cpp:199-247 | an unknown id is refused; otherwise the entry's outcome is that of connecting it, and only that entry changes |
| Sdk.OpenKeepsWellFormed | WandererRotatorSDK.cpp:199-247 | opening a rotator keeps the registry well formed |
| Sdk.CloseDevice | WandererRotatorSDK.cpp:249-271 | an unknown id is refused; otherwise the listener flag is cleared and the port closed, while the entry, its line and its status stay |
| Sdk.CloseTwice | WandererRotatorSDK.cpp:249-271 | closing a rotator twice is the same as closing it once |
| Sdk.ClosedRefusesMotion | WandererRotatorSDK.cpp:249-271 | after `WRRotatorClose`, move, move-to, stop and sync all report a communication error and change nothing |
| Sdk.GetConfig | WandererRotatorSDK.cpp:273-293 | a null pointer comes before the id check; on success only the direction flag and the backlash in degrees (cached tenths over ten) are written |
| Sdk.GetStatus | WandererRotatorSDK.cpp:346-371 | a null pointer comes before the id check; on success the cached position, motion flag and revolution size are reported, the last being 360 times the steps per degree |
| Sdk.VersionModel | WandererRotatorSDK.cpp:390-391 | the reported model is the first min(n, 7) characters of the name's C string of length n: the whole name when it fits, its first seven otherwise |
| Sdk.GetVersion | WandererRotatorSDK.cpp:373-394 | a null pointer comes before the id check; on success the firmware number as `unsigned int` and the cut model name are reported |
| Sdk.VersionReportsModel | WandererRotatorSDK.cpp:373-394 | a well-formed device's model name and non-negative firmware number are reported unchanged |
| Sdk.ApplyReverse | WandererRotatorSDK.cpp:312-321 | with the reverse bit the direction command is sent; success iff it went out whole, and only then are both direction fields set |
| Sdk.BacklashCommand | WandererRotatorSDK.cpp:331-333 | the backlash command line reads back as the backlash command value and ends in a newline |
| Sdk.ApplyBacklash | WandererRotatorSDK.cpp:323-341 | with the backlash bit a negative value is refused before any write; otherwise the command is sent and, iff it went out whole, the backlash is cached as truncated tenths |
| Sdk.SetConfig | WandererRotatorSDK.cpp:295-344 | a null pointer, then the id, are checked first; the direction stage runs before the backlash stage, a failing stage ends the call, and an earlier stage's change stays; only that entry changes |
| Sdk.SetConfigStores | WandererRotatorSDK.cpp:312-341 | an accepted configuration with both bits leaves a non-negative backlash cached as its truncated tenths and the direction flag as given |
| Sdk.StoredBacklashReadsBack | WandererRotatorSDK.cpp:288-290 | a backlash cached as the truncated tenths of x reads back as a whole number of tenths at most a tenth below x, equal to x exactly when x is a whole number of tenths |
| Sdk.SetThenGetConfig | WandererRotatorSDK.cpp:273-344 | an accepted configuration reads back with the direction as given and the backlash rounded down to a whole number of tenths, which equals the given backlash exactly when that is a whole number of tenths |
| Sdk.RejectedBacklashKeepsDirection | WandererRotatorSDK.cpp:312-327 | a negative backlash is refused after the direction command was sent, and the new direction stays |
| Sdk.SyncPosition | WandererRotatorSDK.cpp:401-441 | the id, then the port, then a non-zero angle are refused without a write; otherwise the sync command is sent and, iff it went out whole, the cached position becomes 0 |
| Sdk.MoveCommand | WandererRotatorSDK.cpp:466-468 | the relative-move command reads back as exactly the move value |
| Sdk.Move | WandererRotatorSDK.cpp:443-491 | after the id and port checks, the target angle is recorded even when the send fails; the command for 1000000 plus the truncated steps is sent as the eight-byte buffer holds it; success iff that went out whole, and then the rotator is marked moving and a listener starts |
| Sdk.MoveToDelta | WandererRotatorSDK.cpp:524-539 | the move lies in [-180, 180), ends at the target direction from the queried position, and is zero iff the rotator already points there |
| Sdk.MoveToDeltaIsShortest | WandererRotatorSDK.cpp:524-533 | no rotation from the queried position that reaches the target direction is shorter |
| Sdk.MoveFromPosition | WandererRotatorSDK.cpp:521-544 | once the position is known: the rotator already pointing at the target is a success with nothing sent; otherwise exactly the move command for the shortest delta is sent, the delta becomes the target, and success (iff the write went out whole) leaves the rotator moving with its listener started |
| Sdk.MoveTo | WandererRotatorSDK.cpp:493-545 | the id, the port and the range [0, 360) are checked in that order and refused without a write; a failed status query is a communication error that keeps what the query changed; otherwise it is the move from the queried position; only that entry changes |
| Sdk.MoveToKeepsWellFormed | WandererRotatorSDK.cpp:493-545 | moving to an absolute angle keeps the registry well formed |
| Sdk.FindHome | WandererRotatorSDK.cpp:396-399 | homing is never refused for its angle and reports the same id, port and query errors as any move; after the query it sends nothing when the rotator already points at 0 degrees, and otherwise the move by the shortest delta to 0 degrees, which becomes the target |
| Sdk.StopMove | WandererRotatorSDK.cpp:547-573 | after the id and port checks the stop command is sent and, iff it went out whole, the rotator is marked idle; the listener and overshoot phase are left alone |
| Sdk.StatusAfterMotionCalls | WandererRotatorSDK.cpp:346-371 | after a successful move the status reports motion, after a successful stop none, and after a successful sync position 0 |
| Sdk.MoveCommandAsWritten | WandererRotatorSDK.cpp:466-468 | the command as written is the first min(n, 7) characters of the n-character decimal rendering |
| Sdk.MoveCommandAsWrittenInRange | WandererRotatorSDK.cpp:466-468 | every move value from -999999 to 9999999 fits the eight-byte buffer whole |
| Sdk.HalfTurnMoveFits | WandererRotatorSDK.cpp:466-468 | a move of less than half a turn at any known steps per degree has a value in [784180, 1215820) and is sent whole |
| Sdk.MoveToSendsWholeCommand | WandererRotatorSDK.cpp:493-545 | on a well-formed rotator every move that `WRRotatorMoveTo` sends is the full rendering of its value |
| Sdk.MoveCommandAsWrittenTruncates | WandererRotatorSDK.cpp:466-468 | a move of 8000 degrees at 1199 steps per degree is sent as "1059200", which reads back as 1059200 rather than 10592000 |

## Left out

- Device enumeration through udev and the VID/PID filter are left out: a scan is given the list of candidate ports, and `None` stands for an enumeration that could not be set up.
- termios settings, `tcflush`, `select`, the `usleep` pacing and the timeout durations are left out. A timeout is a reply with no bytes.
- Threads, `std::atomic`, the global and listener mutexes, and the lock released between `WRRotatorMoveTo` and `WRRotatorMove` are left out. The listener is a sequential step (`Protocol.ListenerStep`) run after the call that starts it.
- Float rounding is not modelled; values are exact reals. Neither is `stepSize` (`1/stepsPerDegree`, a division by zero before a model is known), in the device status or in `WR_ROTATOR_STATUS`.
- 32-bit `int` overflow in the command values, and the undefined behaviour of converting an out-of-range float to `int`, are not modelled.
- The replies a `Link` scripts are not required to be frames `Read` could deliver: a scripted reply may be longer than 31 bytes or hold the stop byte before its end. The protocol results are therefore stated for more replies than the instrument can produce, which only makes them stronger.
- `Text.ScanFloat` covers plain decimal notation only. Exponents, hexadecimal floats, `inf` and `nan` are not modelled.
- The return command in the listener uses a 16-byte buffer, which every `int` fits, so it is modelled as the full rendering.
- Nothing in the SDK sets the overshoot phase to 1 or sets the overshoot angle; `WRRotatorSetConfig` ignores those mask bits. The phase and angle are therefore inputs of the listener step, and a fresh device starts with both at 0.
- The second range check in `WRRotatorSyncPosition` (WandererRotatorSDK.cpp:424-427) cannot fail once the angle is 0, so it is not a separate branch of `Sdk.SyncPosition`.
- `QueryStatus` does not update `rotator.reverseDirection`, which `WRRotatorGetConfig` reports; the model keeps that as written.
- Logging, `WRGetSDKVersion` and the interactive test program are left out.
- Protocol.StepsForKnownModels: the example names do not include one spelling "V2" without a space ("LiteV2"), although any name containing both "Lite" and "V2" maps to 1199 by `Protocol.StepsPerDegreeFor`.
- Protocol.StopMoveListener: that a listener already waiting behaves the same whether or not the flag was cleared is not stated as a lemma; the contract only says that the flag is the one thing that changes.

## Findings

| source | as written | input that shows it | evidently intended | confidence | as-written member | corrected member |
|---|---|---|---|---|---|---|
| WandererRotatorSDK.cpp:466-468 | the relative-move value is formatted with `snprintf` into an 8-byte buffer, so a value with more than seven characters is silently cut to its first seven | `WRRotatorMove(id, 8000.0)` on a 1199-steps-per-degree rotator: the value 10592000 is sent as "1059200", a move of 59200 steps instead of 9592000 | the whole value is sent, or the move is refused | not executed | Sdk.MoveCommandAsWritten | Sdk.MoveCommand |

`Sdk.Move` sends the command as written, like the code.
`Sdk.MoveCommand` is the corrected command: the full rendering, which `%d`
reads back as the move value. `Sdk.MoveCommandAsWrittenInRange` shows that the
two agree for every value from -999999 to 9999999. `Sdk.HalfTurnMoveFits`
shows that a move of less than half a turn at any known steps per degree stays
inside that range. `Sdk.MoveToSendsWholeCommand` concludes from it that
`WRRotatorMoveTo` and `WRRotatorFindHome` always send the whole value. Only
large direct calls of `WRRotatorMove` are affected.
