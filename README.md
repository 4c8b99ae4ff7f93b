# Controller-to-serial bridge: a Dafny model of its core rules

The application reads a game controller on Android and drives a microcontroller
over a USB-serial link. Every 20 ms an input loop turns the cached controller
state into one pipe-delimited text frame:
`|n:<x>:<y>:<z>:<rz>|cr:p|ci:no_p|...|R3:no_p|`. The frame goes into a
one-slot queue. A send loop polls that queue every 50 ms and writes the frame
with a trailing newline. A read loop appends the text it receives to a buffer
and takes every complete line out of it. The activity also tracks the single
serial port it holds, and a status line that says whether a connection is up.

All of it is one module, `Controller`, in `controller.dfy`:

- **Pure rules**, as functions with lemmas:
  - the frame text (`FrameText`, `ButtonSection`, `AxesText`, `Tokens`);
  - Kotlin's `mapOf` as an insertion-ordered map (`MapOf`, `Put`);
  - the hat-axis thresholds (`DpadFromHat`);
  - the queue's `clear`/`offer`/`poll` as steps on a sequence (`Step`, `Run`);
  - the status texts and the rules that replace them (`ClosedStatus`, `ReadErrorStatus`, ...).
- **The activity's fields**, which the source updates in place, are the fields
  of the class `Controller.MainActivity`:
  - `serialBuffer`, `receivedData`, `dataQueue`, `buttonStates`, the `latestAxes` array;
  - `port`, `statusMessage`, `sentDataForUi`.

  Each method modifies only the fields it names. `Valid()` is the class
  invariant. It says:
  - there are four axes;
  - the queue holds at most one frame;
  - the receive buffer never keeps a complete line between reads;
  - the status claims a successful connection only while the port is open.
- **`Split`** is Kotlin's `split` on one character. It serves as the reference
  reading of the text, on both sides:
  - the received stream is `lines + [rest] == Split(buffer, '\n')`;
  - the microcontroller recovers every button by splitting the frame on `'|'`.

Inputs that come from outside are parameters of the methods:
- the outcomes of the serial driver (`OpenOutcome`, `ReadOutcome`, `WriteOutcome`);
- the platform's gamepad classification (`isGamepadButton`);
- the "%.2f" formatting of an axis value (`format`);
- the motion event's fields.

Some Android `KeyEvent` key codes are not written in the source:
the d-pad codes 19-22 and the button codes 102-110. The model uses Android's
published values for them.

## Model

| member | source | states |
|---|---|---|
| `Controller.IndexOf` | app/src/main/java/com/example/controller/MainActivity.kt:395-396 | the result is -1 exactly when the character is absent; otherwise it is the position of the first occurrence |
| `Controller.StartsWith` | app/src/main/java/com/example/controller/MainActivity.kt:268 | true exactly when the prefix is no longer than the text and every one of its characters matches the text at the same position |
| `Controller.Split` | app/src/main/java/com/example/controller/MainActivity.kt:394-402 | there is at least one piece, and no piece contains the separator |
| `Controller.JoinSplit` | app/src/main/java/com/example/controller/MainActivity.kt:394-402 | joining the pieces again gives the original text, so splitting loses, duplicates and reorders nothing |
| `Controller.SplitJoin` | app/src/main/java/com/example/controller/MainActivity.kt:355-358 | splitting a joined list of separator-free fields gives the fields back |
| `Controller.Join` | app/src/main/java/com/example/controller/MainActivity.kt:355-357 | joining no parts gives the empty text; otherwise the text begins with the first part (the separator placement is stated against `Split` by `SplitJoin` and `JoinSplit`) |
| `Controller.SplitAtFirst` | app/src/main/java/com/example/controller/MainActivity.kt:395-401 | taking the text before the first newline and deleting it with the newline removes exactly the first piece |
| `Controller.LinesConserve` | app/src/main/java/com/example/controller/MainActivity.kt:394-401 | conservation: the text equals each line followed by a newline, then the remainder |
| `Controller.TakeLineStep` | app/src/main/java/com/example/controller/MainActivity.kt:395-401 | one pass of the framing loop keeps "lines taken + pieces of the buffer = pieces of the whole text" |
| `Controller.TakeLinesDone` | app/src/main/java/com/example/controller/MainActivity.kt:395-402 | when no newline is left: the lines and the buffer are the pieces of the text; the text is conserved; no line contains a newline |
| `Controller.MainActivity.ReceiveChunk` | app/src/main/java/com/example/controller/MainActivity.kt:394-402 | the old buffer plus the chunk equals the emitted lines, each with its newline, followed by the new buffer; the lines and the buffer are free of newlines; lines come in arrival order; `receivedData` becomes the last line, or stays unchanged if no line was emitted |
| `Controller.MainActivity.ReadTick` | app/src/main/java/com/example/controller/MainActivity.kt:385-411 | with the port closed, nothing changes; a failed read replaces only a success status; a non-empty chunk is framed as in `ReceiveChunk` |
| `Controller.Offer` | app/src/main/java/com/example/controller/MainActivity.kt:178 | `offer` on the one-slot queue keeps the old contents in front; below capacity it appends the offered string at the end; a queue within capacity stays within capacity |
| `Controller.Step` | app/src/main/java/com/example/controller/MainActivity.kt:176-179 | queueing (`clear` then `offer`) leaves exactly the new frame and returns nothing; a poll returns the head, or nothing on an empty queue, and leaves a queue within capacity empty |
| `Controller.RunBounded` | app/src/main/java/com/example/controller/MainActivity.kt:61 | no sequence of queue operations takes the queue beyond its capacity of one |
| `Controller.LastOpDecides` | app/src/main/java/com/example/controller/MainActivity.kt:176-179 | last write wins: after any run, the queue is `[d]` if the last operation queued `d`, and empty if it was a poll |
| `Controller.PollSeesLatestWrite` | app/src/main/java/com/example/controller/MainActivity.kt:369 | a poll returns the string queued by the operation just before it, or nothing if that operation was a poll; every earlier write is dropped |
| `Controller.MainActivity.QueueSerialData` | app/src/main/java/com/example/controller/MainActivity.kt:176-179 | afterwards the queue holds exactly `[data]`, whatever it held before |
| `Controller.MainActivity.Poll` | app/src/main/java/com/example/controller/MainActivity.kt:369 | afterwards the queue is empty; the result is the queued string if there was one |
| `Controller.MainActivity.ActualSendSerial` | app/src/main/java/com/example/controller/MainActivity.kt:181-196 | with the port open, a successful write puts `data + "\n"` on the wire and shows `data`, and a failed write sets the send-error status; with the port closed, nothing happens |
| `Controller.MainActivity.SendTick` | app/src/main/java/com/example/controller/MainActivity.kt:367-376 | one send pass empties the queue; it sends the polled frame with its newline only when there was one and the port is open |
| `Controller.Put` | app/src/main/java/com/example/controller/MainActivity.kt:336-354 | the key set grows by exactly the put key; the put pair is present; distinct keys stay distinct; the entry count grows by one only for a new key |
| `Controller.MapOf` | app/src/main/java/com/example/controller/MainActivity.kt:336-354 | the map's keys are pairwise distinct and are exactly the keys of the pairs written; it never has more entries than pairs |
| `Controller.PutNewKey` | app/src/main/java/com/example/controller/MainActivity.kt:336-354 | putting a key that the map does not hold appends the entry at the end of the iteration order |
| `Controller.MapOfDistinct` | app/src/main/java/com/example/controller/MainActivity.kt:336-354 | a `mapOf` with pairwise distinct keys keeps every pair, in the order written |
| `Controller.ButtonMapEntries` | app/src/main/java/com/example/controller/MainActivity.kt:336-354 | the button map has exactly 17 entries, iterated in the order written |
| `Controller.LabelsClean` | app/src/main/java/com/example/controller/MainActivity.kt:336-354 | no button name contains the pipe character |
| `Controller.Tokens` | app/src/main/java/com/example/controller/MainActivity.kt:355-357 | one token per entry, in entry order; a token is `name:p` when the key is pressed and `name:no_p` otherwise, including when the key is absent |
| `Controller.ButtonSection` | app/src/main/java/com/example/controller/MainActivity.kt:355-357 | splitting `btnStr` on the pipe character gives back the 17 button tokens, one per map entry, in map order |
| `Controller.TokensClean` | app/src/main/java/com/example/controller/MainActivity.kt:355-357 | tokens of pipe-free names contain no pipe character |
| `Controller.AxesClean` | app/src/main/java/com/example/controller/MainActivity.kt:335 | formatted axis values without the pipe character give an axes section without the pipe character |
| `Controller.AxesText` | app/src/main/java/com/example/controller/MainActivity.kt:335 | `axesStr` starts with "n:"; when the formatted values contain no colon, the rest splits on ':' back into exactly those values, in order |
| `Controller.FrameText` | app/src/main/java/com/example/controller/MainActivity.kt:358 | the frame starts and ends with the pipe character |
| `Controller.DelimitedFields` | app/src/main/java/com/example/controller/MainActivity.kt:355-358 | a pipe, the axes, a pipe, the pipe-joined tokens and a final pipe split on the pipe into an empty field, the axes, the tokens and an empty field |
| `Controller.TerminatedFields` | app/src/main/java/com/example/controller/MainActivity.kt:355-358 | the pipe-joined tokens followed by a closing pipe split into the tokens and one empty last field |
| `Controller.FrameFields` | app/src/main/java/com/example/controller/MainActivity.kt:335-358 | the frame has exactly 20 pipe-separated fields: empty, the axes, the 17 button tokens in map order, empty |
| `Controller.FrameDecodes` | app/src/main/java/com/example/controller/MainActivity.kt:355-358 | a receiver that splits the frame decodes field i + 2, against the i-th name, to whether that key is pressed |
| `Controller.MainActivity.InputTick` | app/src/main/java/com/example/controller/MainActivity.kt:332-362 | one input pass leaves the queue holding exactly the frame built from the current axes and button states |
| `Controller.UpdatedStates` | app/src/main/java/com/example/controller/MainActivity.kt:307-312 | the key gets the new state and every other key is unchanged; when the key already had that state, the map is unchanged |
| `Controller.MainActivity.UpdateButtonState` | app/src/main/java/com/example/controller/MainActivity.kt:307-312 | the map becomes `UpdatedStates`; the snapshot map is written once exactly when the state differs, and not at all otherwise |
| `Controller.DpadApplied` | app/src/main/java/com/example/controller/MainActivity.kt:296-299 | after the four d-pad updates each d-pad key holds the state given for it; every other key keeps its presence and its value |
| `Controller.DpadFromHat` | app/src/main/java/com/example/controller/MainActivity.kt:293-299 | up and down are never both pressed, nor left and right; each is pressed exactly when its hat value lies strictly beyond ±0.5 |
| `Controller.HatMotion` | app/src/main/java/com/example/controller/MainActivity.kt:293-299 | after the four updates, each d-pad key is pressed exactly when its hat value lies beyond the threshold; opposite keys are never both pressed; every other key is unchanged |
| `Controller.MainActivity.OnGenericMotionEvent` | app/src/main/java/com/example/controller/MainActivity.kt:285-304 | a move event from a controller source is consumed: it stores the four stick axes and sets the d-pad keys from the hat axes, never both keys of an opposite pair; any other event changes nothing and is passed on |
| `Controller.AcceptsKey` | app/src/main/java/com/example/controller/MainActivity.kt:315 | a custom button code is always accepted; a d-pad code is accepted exactly when the platform calls it a gamepad button |
| `Controller.MainActivity.OnKeyDown` | app/src/main/java/com/example/controller/MainActivity.kt:314-321 | a key that the platform calls a gamepad button, or that is one of the four custom codes, becomes pressed; any other key changes nothing and is passed on |
| `Controller.MainActivity.OnKeyUp` | app/src/main/java/com/example/controller/MainActivity.kt:323-330 | the same filter; such a key becomes released |
| `Controller.ClosedStatus` | app/src/main/java/com/example/controller/MainActivity.kt:268-270 | the status becomes "USB接続待機中..." exactly when it started with "USBシリアル接続成功", and is otherwise unchanged; either way it no longer claims a connection |
| `Controller.ReadErrorStatus` | app/src/main/java/com/example/controller/MainActivity.kt:407-409 | a read error replaces only a success status; the result never claims a connection |
| `Controller.ConnectedStatus` | app/src/main/java/com/example/controller/MainActivity.kt:253 | the success status starts with the success prefix |
| `Controller.NoDriverStatus` | app/src/main/java/com/example/controller/MainActivity.kt:240 | the missing-driver status does not claim a connection |
| `Controller.CannotOpenStatus` | app/src/main/java/com/example/controller/MainActivity.kt:246 | the cannot-open status does not claim a connection |
| `Controller.OpenErrorStatus` | app/src/main/java/com/example/controller/MainActivity.kt:255 | the open-error status does not claim a connection |
| `Controller.SendErrorStatus` | app/src/main/java/com/example/controller/MainActivity.kt:192 | the send-error status does not claim a connection |
| `Controller.DetachedStatus` | app/src/main/java/com/example/controller/MainActivity.kt:117 | the detach status does not claim a connection |
| `Controller.MainActivity.CloseUsbPort` | app/src/main/java/com/example/controller/MainActivity.kt:261-271 | the port is always cleared, and the status follows `ClosedStatus` |
| `Controller.MainActivity.OpenUsbDevice` | app/src/main/java/com/example/controller/MainActivity.kt:233-259 | a no-op when the same device is already open; otherwise an open port is closed first, and then the driver's outcome decides the port and the status; permission is requested again only when the connection fails without permission |
| `Controller.MainActivity.OnDeviceDetached` | app/src/main/java/com/example/controller/MainActivity.kt:114-123 | the status reports the detach; the port is cleared only when its device id matches, and is otherwise untouched |
| `Controller.MainActivity.constructor` | app/src/main/java/com/example/controller/MainActivity.kt:46-65 | the initial state: the waiting status and the two "N/A" texts that `onCreate` assigns at lines 132-134, no port, zero axes, no buttons, empty queue and empty buffer |

Notes on reading the source:
- The line published to `receivedData` is posted to the main thread. The main
  looper runs posts in order, so the model assigns each line directly.
  `receivedData` therefore ends as the last line.
- `onKeyDown`/`onKeyUp` test the platform filter on `event.keyCode` and the
  custom set on the `keyCode` argument. The framework passes the same code in
  both, so the model takes one code.
- The label "cr" goes with `KEYCODE_CUSTOM_CIRCLE` (97), and "ci" with
  `KEYCODE_CUSTOM_CROSS` (96). The model keeps the source's pairing as written.
- When `openDevice` returns no connection (MainActivity.kt:244-248), the port
  taken from the driver stays held but not open. A later detach of that device
  clears it. The model keeps this state: `SerialPort(id, false)`. When `open`
  or `setParameters` throws instead, `closeUsbPort` clears the port.

## Left out

- The Compose UI functions (rendering, layout math).
- USB permission and broadcast plumbing. This covers `requestUsbPermission`,
  `checkConnectedUsbDevices`, receiver registration in `onCreate`, and the
  attach and permission branches of the USB receiver. Of the receiver, only
  the detach branch is modelled. `UsbPermissionReceiver.kt` is not part of
  this model. The model reports a repeated permission request only as the
  result `permissionRequested`.
- Scheduling and threading. This covers the handler and executor timers, the
  20/50/200 ms intervals, and `onDestroy`. Each loop pass is one method
  (`InputTick`, `SendTick`, `ReadTick`), run one at a time. Races between the
  threads are not modelled. One example is a poll that falls between `clear`
  and `offer`.
- Float formatting of the axes with "%.2f", which is locale dependent. It is
  the `format` parameter.
- UTF-8 encoding of the written frame, and UTF-8 decoding of the bytes read.
  A chunk is an already-decoded string, so a multi-byte character split
  across two reads is not modelled.
- The serial driver's `open`, `setParameters`, `read`, `write` and `close`
  calls, and their timeouts. Only their outcomes are inputs.
- Logging.
- OnGenericMotionEvent: the result of the framework's default handler for an
  event that is passed on is not modelled; `consumed` is false for it.
- OnKeyDown: the result of the framework's default handler for a key that is
  passed on is not modelled; `consumed` is false for it.
- OnKeyUp: the result of the framework's default handler for a key that is
  passed on is not modelled; `consumed` is false for it.
- DpadFromHat: the hat values are reals, so a NaN hat value is not modelled.
  The source compares floats, and NaN makes every comparison false.
