# plate_recognition — a verified model of the checkpoint core

This project models the core of an automatic border checkpoint. A camera stream is
sampled while a presence sensor reports a vehicle. License plates are detected and
read by OCR. Each read is repaired to the regional plate grammar (`R`, two letters,
three digits, one letter). Six accepted reads are merged by a per-position vote. The
voted plate is looked up in the vehicle registry. A vehicle whose first border check
is approved gets two log entries and a gate cycle on the barrier servo. Separately, a
border check's approval flag is derived from an uploaded PDF: the document must
contain the phrase `AUTHORIZED TO PASS`.

Modules:

- `Wrappers` (wrappers.dfy): `Option`.
- `LicensePlate` (license_plate.dfy): the confusion tables, `license_complies_format`,
  `format_license` (a method building the plate character by character, proved
  against the function `Formatted`) and `read_license_plate` (a loop with early
  return over the OCR candidates, proved against `FirstRead`).
- `Voting` (voting.dfy): `Counter(...).most_common(1)` and the `zip(*plate_list)`
  vote.
- `Registry` (registry.dfy): the vehicle / plate / border-check lookups. Tables
  are sequences in primary-key order.
- `Servo` (servo.dfy): `set_angle` and `_open_gate_thread` as a class `Motor`
  whose field is the trace of duty-cycle writes.
- `Recognition` (recognition.dfy): the `generate_video` loop. It is a class
  `Checkpoint` whose fields are `frame_number`, `plate_list`, `plate_limit`, the
  log and an "ended" flag. Its methods are proved against the step functions
  `AfterRead`, `AfterBoxes`, `AfterFrame` and `AfterFrames`.
- `Border` (border.dfy): `check_authorization_file` and `BorderCheck.save`.

Behaviour of the code worth knowing:

- `format_license` returns 7 characters for every input of at least 7 characters.
  Characters after position 6 are dropped. An 8-character read therefore never
  reaches the buffer.
- The border check consulted is the first one in primary-key order
  (`.first()` on an unordered query).
- When the voted plate matches more than one registry row,
  `Vehicle.objects.get` raises MultipleObjectsReturned. The stream then ends
  with the buffer untouched (`Ambiguous`, `ended`).
- Clamping does not order a box's corners. When the clamped crop
  `resized_frame[y1:y2, x1:x2]` has no pixel, the colour conversion after it
  raises and the stream ends. Boxes after it in the same frame are not read.

## Model

| member | source | states |
|---|---|---|
| LicensePlate.CompliesFormat | util.py:11-39 | only a text of 7 or 8 characters starting with `R` can comply |
| LicensePlate.LongPlateExtendsShort | util.py:29-37 | an 8-character text complies exactly when its first 7 characters do and its last is an upper-case letter |
| LicensePlate.CompliesFormatByPosition | util.py:21-39 | the grammar holds exactly for texts of length 7 or 8 whose position 0 is `R`, positions 3-5 digits and all other positions upper-case letters |
| LicensePlate.FixLetter | util.py:55-61 | a letter position always yields an upper-case letter; it keeps the character exactly when that is already a letter; table digits go through the digit-to-letter table; anything else becomes `A` |
| LicensePlate.FixDigit | util.py:64-70 | a digit position always yields a digit; it keeps the character exactly when that is already a digit; table letters go through the letter-to-digit table; anything else becomes `0` |
| LicensePlate.FixLast | util.py:73-81 | the last position yields a letter other than `O`; `O` becomes `C`; it keeps the character exactly when that is a letter other than `O` |
| LicensePlate.FormatLicense | util.py:52-83 | the method's appends produce exactly the position-wise repair of the text: 7 characters when the text is longer than 6, else 6 |
| LicensePlate.FormattedComplies | util.py:52-83 | for every text of at least 7 characters the repaired plate has length 7, satisfies the grammar and does not end in `O` |
| LicensePlate.FormattedIdempotent | util.py:52-83 | repairing a repaired plate changes nothing |
| LicensePlate.FormattedFixedPoints | util.py:52-83 | a text of at least 7 characters is left unchanged exactly when it is a grammatical 7-character plate not ending in `O` |
| LicensePlate.FormattedExample | util.py:55-61 | `RA8123C` is repaired to `RAB123C` |
| LicensePlate.Clean | util.py:99 | the cleaned text is no longer than the input, holds no space and no lower-case letter, and keeps the length when the input has no space |
| LicensePlate.CleanAppend | util.py:99 | cleaning distributes over concatenation |
| LicensePlate.CleanIdempotent | util.py:99 | cleaning a cleaned text changes nothing |
| LicensePlate.FirstReadIsFirstUsable | util.py:97-107 | no read exactly when no candidate cleans to at least 7 characters; otherwise the read is the repaired text and unchanged score of the first such candidate, and it is a grammatical 7-character plate (the grammar check after the repair never rejects) |
| LicensePlate.ReadLicensePlate | util.py:85-107 | the loop with early return yields exactly `FirstRead` of the candidates |
| Voting.ArgMaxFrom | recognition/views.py:141 | the index found has a maximal count and every earlier position has a strictly smaller count |
| Voting.MostCommon | recognition/views.py:141 | the character chosen occurs in the column, no character is more frequent, and every character first seen before it is strictly less frequent |
| Voting.EarliestMostFrequentUnique | recognition/views.py:141 | at most one character meets the tie rule, so the vote is determined |
| Voting.MajorityWins | recognition/views.py:141 | a character held by more than half of a column is the one chosen |
| Voting.MinLen | recognition/views.py:138 | `zip` stops at the length of the shortest read: no read is shorter and some read has that length |
| Voting.Vote | recognition/views.py:138-144 | the voted plate is as long as the shortest read and each position holds the most common character of that column, ties going to the first seen |
| Voting.VoteUnanimous | recognition/views.py:138-144 | identical reads vote for themselves |
| Voting.VoteComplies | recognition/views.py:138-144 | if every read satisfies the grammar, so does the vote |
| Voting.VoteMajority | recognition/views.py:138-144 | a plate held by more than half of equally long reads is the vote |
| Voting.VoteExample | recognition/views.py:138-144 | five `RAB123C` and one `RAB129C` vote `RAB123C` |
| Registry.FindFrom | recognition/views.py:151 | `filter(...).first()` gives the first vehicle in order holding the plate, or none exactly when no vehicle holds it |
| Registry.MatchRows | recognition/views.py:154 | the join yields no row exactly when no vehicle holds the plate |
| Registry.DistinctHoldersCount | recognition/views.py:154 | two different vehicles holding the plate make the join yield at least two rows, so `get` raises |
| Registry.FirstApproval | recognition/views.py:157-159 | true exactly when the vehicle's first border check exists and is approved |
| Registry.Decide | recognition/views.py:151-174 | not found exactly when no vehicle holds the plate; ambiguous exactly when the join has more than one row; approved exactly when there is one row and its vehicle's first check is approved; an approved vehicle is registered, holds the plate and is cleared; a not-approved vehicle's first check is not approved |
| Servo.Duty | recognition/views.py:43 | the duty cycle of a valid angle lies in [2, 12] and maps back to the angle as `(duty - 2) * 18` |
| Servo.AngleSignals | recognition/views.py:42-50 | a valid angle writes its duty then 0; any other angle writes nothing and is reported |
| Servo.PairedEndsStopped | recognition/views.py:44-48 | a trace whose pulses are each followed by a stop leaves the output at duty 0 |
| Servo.AngleSignalsKeepPaired | recognition/views.py:42-50 | a `set_angle` call keeps every pulse in [2, 12] and followed by a stop |
| Servo.GateCycle | recognition/views.py:56-59 | one gate cycle writes 12, 0, 58/9, 0 (180 degrees, then 80), with paired pulses, and ends stopped |
| Servo.Motor.constructor | recognition/views.py:31-32 | the servo starts with an empty trace and stopped output |
| Servo.Motor.SetAngle | recognition/views.py:37-50 | the trace grows by that call's signals, keeps pulses paired and leaves the output stopped |
| Servo.Motor.OpenGateCycle | recognition/views.py:56-59 | the trace grows by exactly one gate cycle and the output ends stopped |
| Recognition.ShouldProcess | recognition/views.py:96-97 | a frame is processed only when the sensor is triggered |
| Recognition.OneFrameInThree | recognition/views.py:96-97 | with the sensor triggered, exactly one frame in every three consecutive frame numbers is processed, with period 3 |
| Recognition.Clamp | recognition/views.py:112-116 | a clamped box lies inside the 640x480 frame, each coordinate is unchanged or moved to the edge it crossed, and a box inside the frame is unchanged |
| Recognition.ClampMayInvertBox | recognition/views.py:112-119 | clamping does not order the corners: a box right of the frame comes out with x1 > x2, and its crop is empty |
| Recognition.SliceBound | recognition/views.py:119 | a slice bound always falls inside the axis, and a bound already inside it is kept |
| Recognition.SliceLen | recognition/views.py:119 | a slice selects at most the whole axis; `[start:stop]` with ordered bounds inside the axis selects `stop - start` indices, and one with `stop <= start` selects none |
| Recognition.ClampedCropEmpty | recognition/views.py:112-119 | a clamped box whose far corner is not negative has an empty crop exactly when its corners are not ordered |
| Recognition.FirstEmptyCrop | recognition/views.py:108-120 | every box before the index found has a non-empty crop, and the box at that index, if any, has an empty one |
| Recognition.GateLogAppend | recognition/views.py:159-166 | appending well-formed open/request/close logs keeps the log well formed |
| Recognition.AfterRead | recognition/views.py:131-177 | only a 7-character read with score at least 0.3 changes the state; fewer than five buffered reads just grow the buffer; the sixth runs the vote and lookup, empties the buffer and appends that decision's log entries, unless the lookup is ambiguous, which ends the stream; the log changes only for an approved vote; the invariant (buffer of at most five 7-character plates, well-formed cleared log) is kept |
| Recognition.AfterReads | recognition/views.py:108-126 | offering a frame's reads keeps the invariant and the frame counter, and does nothing once the stream has ended |
| Recognition.AfterReadsStep | recognition/views.py:108-126 | offering reads from position `i` is offering read `i` and then the rest |
| Recognition.AfterBoxes | recognition/views.py:108-126 | reading a frame's boxes keeps the invariant and the frame counter, does nothing once the stream has ended, and ends the stream when some box has an empty crop |
| Recognition.AfterFrame | recognition/views.py:96-196 | an unsampled frame or an idle sensor only advances the counter; a processed frame with an empty crop ends the stream; the counter advances on every frame unless the stream ended; the invariant is kept |
| Recognition.InvertedBoxEndsStream | recognition/views.py:108-126 | a processed frame whose first box lies right of the frame ends the stream with nothing read |
| Recognition.AfterFrames | recognition/views.py:90-196 | the loop over a whole video keeps the invariant |
| Recognition.IdleSensorDoesNothing | recognition/views.py:96-97 | while the sensor never triggers, only the frame counter moves, by one per frame |
| Recognition.GateRequestsAreBracketed | recognition/views.py:159-166 | every gate opening in the log comes right after a "Gate Opened" entry and right before a "Gate Closed" entry for the same vehicle, and that vehicle is cleared |
| Recognition.BufferRead | recognition/views.py:132-134 | an accepted read that does not fill the buffer only appends its plate |
| Recognition.FillingRead | recognition/views.py:136-177 | the read that fills the buffer, when the lookup is not ambiguous, empties the buffer and logs exactly that decision's entries |
| Recognition.FillingAgreeingRead | recognition/views.py:136-177 | a sixth read agreeing with five buffered ones runs the lookup of that very plate |
| Recognition.BufferReads | recognition/views.py:132-134 | `n` agreeing accepted reads that do not fill the buffer append that plate `n` times |
| Recognition.SixAgreeingReads | recognition/views.py:131-177 | six agreeing accepted reads into an empty buffer leave it empty and log the decision for that plate: the open/close entries exactly when the vehicle is approved |
| Recognition.Checkpoint.constructor | recognition/views.py:76-79 | the loop starts with counter 0, an empty buffer, `plate_limit` 0 and an empty log |
| Recognition.Checkpoint.Resolve | recognition/views.py:148-177 | the lookup either ends the stream on an ambiguous plate, leaving the buffer, or appends the decision's log entries and resets `plate_list` and `plate_limit` |
| Recognition.Checkpoint.Offer | recognition/views.py:131-177 | one read moves the state exactly as `AfterRead`, keeps `plate_limit == len(plate_list)`, and emits a voted plate exactly when a sixth read is accepted, that plate being the vote of the six buffered reads |
| Recognition.Checkpoint.ReadBoxes | recognition/views.py:108-126 | the loop over the boxes, stopping at an empty crop or when the stream dies, moves the state exactly as `AfterBoxes` |
| Recognition.Checkpoint.ProcessFrame | recognition/views.py:96-196 | one loop pass moves the state exactly as `AfterFrame` |
| Recognition.Checkpoint.Run | recognition/views.py:90-196 | the loop over the frames moves the state exactly as `AfterFrames` |
| Border.ContainsAcrossNewline | border/models.py:65-69 | a phrase without a newline occurs in two texts joined by a newline exactly when it occurs in one of them |
| Border.JoinContains | border/models.py:61-70 | the phrase occurs in the newline-joined pages exactly when it occurs on some single page |
| Border.CheckAuthorizationFile | border/models.py:46-75 | approved exactly when the path ends in `.pdf` ignoring case, the pages could be read and some page contains `AUTHORIZED TO PASS`; a path or read failure never approves |
| Border.BorderCheck.constructor | border/models.py:32 | a new row is not approved |
| Border.BorderCheck.Save | border/models.py:34-44 | with a file attached the flag becomes the document check's result; without one it is left as it was |

## Left out

- YOLO detection, easyocr `readtext` and the OpenCV work (resize, colour conversion, threshold, drawing, JPEG encoding). The model takes the detected boxes and the OCR candidates of each clamped box as inputs. Of the crop, only whether it is empty is modelled, which is the case where the colour conversion raises. `int()` truncation of box coordinates is not modelled: coordinates are integers from the start.
- RPi.GPIO, PWM and `sleep`. The servo is an abstract trace of duty-cycle writes. The IR sensor reading is an input per frame.
- Threading and `gpio_lock`. `open_gate` is recorded as a `GateOpenRequested` action. The thread's writes are modelled once, sequentially, by `Servo.Motor.OpenGateCycle`. Overlapping gate threads are not modelled. "Gate Closed" is logged right after the thread is started, not when the cycle ends.
- Floating point. Duty cycles and OCR scores are exact reals, so duty-cycle rounding is not modelled.
- `str.upper`, `str.lower` and the character classes of `string` are modelled over ASCII only. Python's Unicode case mapping is not modelled.
- Django ORM persistence: `super().save`, `MotorControlLog.objects.create` (a log entry in the model). The tables are sequences in primary-key order, so `.first()` is their first element. The registry is constant during one run of the loop.
- Opening the video source, the end of the stream, and the failure to open it (`cap.isOpened()`). These are modelled only as the frame sequence running out.
- `StreamingHttpResponse`, the multipart frame framing and the `yield` of each frame. The `video_feed` and `home` views, and the `redirect` they never call, are not part of this model.
- Console output (`print`), including the "Invalid angle" message. The message is an `AngleRejected` signal in the trace.
- The `if probable_plate` test is not a branch of the model. Every buffered read has 7 characters, so the vote is never empty.
- LicensePlate.FormatLicense: requires at least 6 characters. On shorter text the source raises IndexError, which is not modelled. Its only caller passes at least 7 characters.
- LicensePlate.Clean: states what the cleaned text cannot contain, its length bounds and the two partner lemmas. It does not state character by character that it is the upper-cased input with spaces removed.
- Border.CheckAuthorizationFile: PyMuPDF is not modelled. Any exception raised by `default_storage.path` or while opening or reading the PDF is an absent path or absent page list.
- recognition/models.py (`PlateRecognition`) and the admin and URL modules are not part of this model.
