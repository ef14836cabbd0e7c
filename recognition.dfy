/**
  The detection-to-decision logic of `generate_video` (recognition/views.py):
  frame sampling gated by the presence sensor, box clamping, the consensus
  buffer (`plate_list` / `plate_limit`), the vote, and the registry decision
  with its motor-control log entries.

  The detector, the OCR engine and the image work are inputs: each frame
  brings the sensor reading, the detected boxes, and the OCR candidates for
  the crop of a (clamped) box. Spawning the gate thread is recorded as an
  action; the servo writes of that thread are modelled in module Servo.
 */
module Recognition {
  import opened Wrappers
  import opened LicensePlate
  import opened Voting
  import opened Registry

  /** Frames skipped between two sampled frames. */
  const FrameSkip: nat := 2

  /** Working resolution the frame is resized to. */
  const FrameWidth: nat := 640
  const FrameHeight: nat := 480

  /** Largest `plate_limit` at which a read is still appended. */
  const PlateLimit: nat := 5

  /** Lowest OCR confidence a read needs to be buffered. */
  const MinScore: real := 0.3

  const GateOpened: string := "Gate Opened"
  const GateClosed: string := "Gate Closed"

  /** The frame is run through detection: it is a sampled frame and the sensor sees an object. */
  predicate ShouldProcess(frameNumber: nat, triggered: bool)
    ensures ShouldProcess(frameNumber, triggered) ==> triggered
  {
    frameNumber % (FrameSkip + 1) == 0 && triggered
  }

  /** With the sensor triggered, exactly one frame in every three consecutive ones is processed. */
  lemma OneFrameInThree(n: nat)
    ensures ShouldProcess(n, true) ==> !ShouldProcess(n + 1, true) && !ShouldProcess(n + 2, true)
    ensures ShouldProcess(n, true) || ShouldProcess(n + 1, true) || ShouldProcess(n + 2, true)
    ensures ShouldProcess(n, true) <==> ShouldProcess(n + FrameSkip + 1, true)
  {
  }

  /** A detected box in pixel coordinates of the resized frame. */
  datatype Box = Box(x1: int, y1: int, x2: int, y2: int)

  predicate InFrame(b: Box) {
    b.x1 >= 0 && b.y1 >= 0 && b.x2 <= FrameWidth && b.y2 <= FrameHeight
  }

  /** Coordinates clamped to the frame: `max(x1, 0)`, `max(y1, 0)`, `min(x2, 640)`, `min(y2, 480)`. */
  function Clamp(b: Box): (r: Box)
    ensures InFrame(r)
    ensures InFrame(b) ==> r == b
    ensures r.x1 == b.x1 || (b.x1 < 0 && r.x1 == 0)
    ensures r.y1 == b.y1 || (b.y1 < 0 && r.y1 == 0)
    ensures r.x2 == b.x2 || (b.x2 > FrameWidth && r.x2 == FrameWidth)
    ensures r.y2 == b.y2 || (b.y2 > FrameHeight && r.y2 == FrameHeight)
  {
    Box(if b.x1 < 0 then 0 else b.x1,
        if b.y1 < 0 then 0 else b.y1,
        if b.x2 > FrameWidth then FrameWidth else b.x2,
        if b.y2 > FrameHeight then FrameHeight else b.y2)
  }

  /** Where Python's slice `[start:stop]` begins or ends on an axis of length `n`: negative indices count from the end. */
  function SliceBound(i: int, n: nat): (b: nat)
    ensures b <= n
    ensures 0 <= i <= n ==> b == i
  {
    if i < 0 then (if i + n < 0 then 0 else i + n)
    else if i > n then n
    else i
  }

  /** How many indices `[start:stop]` selects on an axis of length `n`. */
  function SliceLen(start: int, stop: int, n: nat): (len: nat)
    ensures len <= n
    ensures 0 <= start <= stop <= n ==> len == stop - start
    ensures 0 <= stop <= start ==> len == 0
  {
    var lo := SliceBound(start, n);
    var hi := SliceBound(stop, n);
    if hi > lo then hi - lo else 0
  }

  /**
    The crop `resized_frame[y1:y2, x1:x2]` of a box has no pixel; the colour
    conversion that follows raises on it.
   */
  predicate EmptyCrop(b: Box) {
    SliceLen(b.x1, b.x2, FrameWidth) == 0 || SliceLen(b.y1, b.y2, FrameHeight) == 0
  }

  /** A clamped box whose far corner is not negative crops nothing exactly when its corners are not ordered. */
  lemma ClampedCropEmpty(b: Box)
    ensures var r := Clamp(b);
      r.x2 >= 0 && r.y2 >= 0 ==> (EmptyCrop(r) <==> r.x1 >= r.x2 || r.y1 >= r.y2)
  {
  }

  /** Clamping does not order the corners: a box right of the frame comes out with x1 > x2 and crops nothing. */
  lemma ClampMayInvertBox()
    ensures var r := Clamp(Box(700, 10, 800, 50)); r.x1 > r.x2 && EmptyCrop(r)
  {
  }

  /** Index of the first box whose clamped crop is empty, or the number of boxes. */
  function FirstEmptyCrop(boxes: seq<Box>): (k: nat)
    ensures k <= |boxes|
    ensures forall j :: 0 <= j < k ==> !EmptyCrop(Clamp(boxes[j]))
    ensures k < |boxes| ==> EmptyCrop(Clamp(boxes[k]))
  {
    if boxes == [] then 0
    else if EmptyCrop(Clamp(boxes[0])) then 0
    else
      assert forall j :: 1 <= j < |boxes| ==> boxes[j] == boxes[1..][j - 1];
      1 + FirstEmptyCrop(boxes[1..])
  }

  /** One frame as the loop sees it: sensor reading, detected boxes, and OCR of the crop of a box. */
  datatype Frame = Frame(triggered: bool, boxes: seq<Box>, ocr: Box -> seq<Candidate>)

  /** A MotorControlLog row, or the start of a gate thread (`open_gate()`). */
  datatype Action = Logged(vehicle: nat, action: string) | GateOpenRequested

  /** What a registry decision writes and triggers. */
  function ActionsFor(d: Decision): seq<Action> {
    match d
    case Approved(v) => [Logged(v, GateOpened), GateOpenRequested, Logged(v, GateClosed)]
    case _ => []
  }

  /** The action trace is a sequence of open/request/close triples, each for a cleared vehicle. */
  ghost predicate GateLog(reg: Records, acts: seq<Action>)
    decreases |acts|
  {
    acts == [] ||
    (&& |acts| >= 3
     && acts[0].Logged? && acts[0].action == GateOpened
     && acts[1] == GateOpenRequested
     && acts[2] == Logged(acts[0].vehicle, GateClosed)
     && Cleared(reg, acts[0].vehicle)
     && GateLog(reg, acts[3..]))
  }

  lemma {:induction false} GateLogAppend(reg: Records, a: seq<Action>, b: seq<Action>)
    requires GateLog(reg, a) && GateLog(reg, b)
    ensures GateLog(reg, a + b)
    decreases |a|
  {
    if a == [] {
      assert a + b == b;
    } else {
      GateLogAppend(reg, a[3..], b);
      assert (a + b)[3..] == a[3..] + b;
    }
  }

  /** The loop's own state: `frame_number`, `plate_list`, the log, and whether the stream has died. */
  datatype State = State(frameNumber: nat, plates: seq<string>, actions: seq<Action>, ended: bool)

  /**
    Between reads the buffer holds at most five plates of 7 characters (six
    only when the stream died during the lookup), and the log is well formed.
   */
  ghost predicate Inv(reg: Records, s: State) {
    && |s.plates| <= (if s.ended then PlateLimit + 1 else PlateLimit)
    && (forall j :: 0 <= j < |s.plates| ==> |s.plates[j]| == 7)
    && GateLog(reg, s.actions)
  }

  /** A read that is appended to the buffer. */
  predicate Buffered(read: Option<Read>) {
    read.Some? && |read.value.plate| == 7 && read.value.score >= MinScore
  }

  /** The lookup of a voted plate when the sixth read arrives. */
  function VoteOn(reg: Records, plates: seq<string>, read: Option<Read>): Decision
    requires read.Some?
  {
    Decide(reg, Vote(plates + [read.value.plate]))
  }

  /** One OCR read offered to the consensus buffer, with the vote and the lookup it may trigger. */
  function AfterRead(reg: Records, s: State, read: Option<Read>): (r: State)
    requires Inv(reg, s) && !s.ended
    ensures Inv(reg, r)
    ensures r.frameNumber == s.frameNumber
    ensures !Buffered(read) ==> r == s
    ensures Buffered(read) && |s.plates| < PlateLimit ==> r == s.(plates := s.plates + [read.value.plate])
    ensures r.ended <==> Buffered(read) && |s.plates| == PlateLimit && VoteOn(reg, s.plates, read) == Ambiguous
    ensures Buffered(read) && |s.plates| == PlateLimit && !r.ended ==>
      r.plates == [] && r.actions == s.actions + ActionsFor(VoteOn(reg, s.plates, read))
    ensures r.actions != s.actions ==>
      Buffered(read) && |s.plates| == PlateLimit && VoteOn(reg, s.plates, read).Approved?
  {
    if read.None? then s
    else
      var plates :=
        if |read.value.plate| == 7 && read.value.score >= MinScore && |s.plates| <= PlateLimit
        then s.plates + [read.value.plate]
        else s.plates;
      if |plates| > PlateLimit then
        var d := Decide(reg, Vote(plates));
        if d == Ambiguous then s.(plates := plates, ended := true)
        else
          GateLogAppend(reg, s.actions, ActionsFor(d));
          s.(plates := [], actions := s.actions + ActionsFor(d))
      else s.(plates := plates)
  }

  /** Reads offered one after the other, stopping when the stream dies. */
  function AfterReads(reg: Records, s: State, offered: seq<Option<Read>>): (r: State)
    requires Inv(reg, s)
    ensures Inv(reg, r)
    ensures r.frameNumber == s.frameNumber
    ensures s.ended ==> r == s
    decreases |offered|
  {
    if offered == [] || s.ended then s
    else AfterReads(reg, AfterRead(reg, s, offered[0]), offered[1..])
  }

  /** Offering the reads from position `i` on is offering read `i` and then the rest. */
  lemma AfterReadsStep(reg: Records, s: State, offered: seq<Option<Read>>, i: nat)
    requires Inv(reg, s) && !s.ended && i < |offered|
    ensures AfterReads(reg, s, offered[i..]) == AfterReads(reg, AfterRead(reg, s, offered[i]), offered[i + 1..])
  {
  }

  /** The plate read from each box of a frame, in detection order. */
  function BoxReads(boxes: seq<Box>, ocr: Box -> seq<Candidate>): seq<Option<Read>> {
    seq(|boxes|, i requires 0 <= i < |boxes| => FirstRead(ocr(Clamp(boxes[i]))))
  }

  /**
    The detected boxes of a processed frame, read in detection order up to
    the first one whose crop is empty; that one raises and ends the stream.
   */
  function AfterBoxes(reg: Records, s: State, boxes: seq<Box>, ocr: Box -> seq<Candidate>): (r: State)
    requires Inv(reg, s)
    ensures Inv(reg, r)
    ensures r.frameNumber == s.frameNumber
    ensures s.ended ==> r == s
    ensures !s.ended && FirstEmptyCrop(boxes) < |boxes| ==> r.ended
  {
    var k := FirstEmptyCrop(boxes);
    var t := AfterReads(reg, s, BoxReads(boxes[..k], ocr));
    if t.ended then t
    else if k < |boxes| then t.(ended := true)
    else t
  }

  /** One iteration of the `while True` loop for a frame that was read. */
  function AfterFrame(reg: Records, s: State, f: Frame): (r: State)
    requires Inv(reg, s)
    ensures Inv(reg, r)
    ensures s.ended ==> r == s
    ensures !s.ended && !ShouldProcess(s.frameNumber, f.triggered) ==> r == s.(frameNumber := s.frameNumber + 1)
    ensures !s.ended && ShouldProcess(s.frameNumber, f.triggered) && FirstEmptyCrop(f.boxes) < |f.boxes| ==> r.ended
    ensures !r.ended ==> r.frameNumber == s.frameNumber + 1
  {
    if s.ended then s
    else if ShouldProcess(s.frameNumber, f.triggered) then
      var t := AfterBoxes(reg, s, f.boxes, f.ocr);
      if t.ended then t else t.(frameNumber := t.frameNumber + 1)
    else s.(frameNumber := s.frameNumber + 1)
  }

  /** A processed frame whose first detection lies right of the frame ends the stream before any read. */
  lemma InvertedBoxEndsStream(reg: Records, s: State, f: Frame)
    requires Inv(reg, s) && !s.ended && ShouldProcess(s.frameNumber, f.triggered)
    requires |f.boxes| > 0 && f.boxes[0] == Box(700, 10, 800, 50)
    ensures AfterFrame(reg, s, f) == s.(ended := true)
  {
    assert FirstEmptyCrop(f.boxes) == 0;
    assert f.boxes[..0] == [];
    assert BoxReads(f.boxes[..0], f.ocr) == [];
  }

  /** The loop over a whole video: until the frames run out or the stream dies. */
  function AfterFrames(reg: Records, s: State, frames: seq<Frame>): (r: State)
    requires Inv(reg, s)
    ensures Inv(reg, r)
    decreases |frames|
  {
    if frames == [] || s.ended then s
    else AfterFrames(reg, AfterFrame(reg, s, frames[0]), frames[1..])
  }

  /** While the sensor never triggers, only the frame counter moves. */
  lemma {:induction false} IdleSensorDoesNothing(reg: Records, s: State, frames: seq<Frame>)
    requires Inv(reg, s) && !s.ended
    requires forall i :: 0 <= i < |frames| ==> !frames[i].triggered
    ensures AfterFrames(reg, s, frames) == s.(frameNumber := s.frameNumber + |frames|)
    decreases |frames|
  {
    if frames != [] {
      var t := AfterFrame(reg, s, frames[0]);
      assert t == s.(frameNumber := s.frameNumber + 1);
      assert forall i :: 0 <= i < |frames[1..]| ==> frames[1..][i] == frames[i + 1];
      IdleSensorDoesNothing(reg, t, frames[1..]);
    }
  }

  /**
    Every gate request in the log sits between a "Gate Opened" and a
    "Gate Closed" entry for the same vehicle, and that vehicle is cleared.
   */
  lemma {:induction false} GateRequestsAreBracketed(reg: Records, acts: seq<Action>, i: nat)
    requires GateLog(reg, acts)
    requires i < |acts| && acts[i] == GateOpenRequested
    ensures 0 < i < |acts| - 1
    ensures acts[i - 1].Logged? && acts[i - 1].action == GateOpened
    ensures acts[i + 1] == Logged(acts[i - 1].vehicle, GateClosed)
    ensures Cleared(reg, acts[i - 1].vehicle)
  {
    assert acts[..3][0] == acts[0] && acts[..3][1] == acts[1] && acts[..3][2] == acts[2];
    if i >= 3 {
      var rest := acts[3..];
      assert rest[i - 3] == acts[i];
      GateRequestsAreBracketed(reg, rest, i - 3);
      assert rest[i - 4] == acts[i - 1] && rest[i - 2] == acts[i + 1];
    }
  }

  /** A buffered read that does not fill the buffer only appends its plate. */
  lemma BufferRead(reg: Records, s: State, read: Option<Read>, rest: seq<Option<Read>>)
    requires Inv(reg, s) && !s.ended && |s.plates| < PlateLimit && Buffered(read)
    ensures Inv(reg, s.(plates := s.plates + [read.value.plate]))
    ensures AfterReads(reg, s, [read] + rest) == AfterReads(reg, s.(plates := s.plates + [read.value.plate]), rest)
  {
  }

  /** The read that fills the buffer, when the lookup is not ambiguous, logs its decision and empties the buffer. */
  lemma FillingRead(reg: Records, s: State, read: Option<Read>)
    requires Inv(reg, s) && !s.ended && |s.plates| == PlateLimit && Buffered(read)
    requires VoteOn(reg, s.plates, read) != Ambiguous
    ensures AfterReads(reg, s, [read]) == s.(plates := [], actions := s.actions + ActionsFor(VoteOn(reg, s.plates, read)))
  {
  }

  /** `n` copies of `x`. */
  function Repeat<T>(x: T, n: nat): (r: seq<T>)
    ensures |r| == n && forall j :: 0 <= j < n ==> r[j] == x
  {
    if n == 0 then [] else [x] + Repeat(x, n - 1)
  }

  /** Splitting off the first copy, both after a prefix and before a suffix. */
  lemma RepeatUnfold<T>(x: T, n: nat, rest: seq<T>)
    requires n > 0
    ensures Repeat(x, n) + rest == [x] + (Repeat(x, n - 1) + rest)
    ensures forall a: seq<T> {:trigger a + Repeat(x, n)} :: (a + [x]) + Repeat(x, n - 1) == a + Repeat(x, n)
  {
  }

  /** A sixth read agreeing with five buffered ones runs the lookup of that plate. */
  lemma FillingAgreeingRead(reg: Records, s: State, read: Option<Read>)
    requires Inv(reg, s) && !s.ended && Buffered(read)
    requires s.plates == Repeat(read.value.plate, PlateLimit)
    requires Decide(reg, read.value.plate) != Ambiguous
    ensures AfterReads(reg, s, [read]) ==
      s.(plates := [], actions := s.actions + ActionsFor(Decide(reg, read.value.plate)))
  {
    var p := read.value.plate;
    VoteUnanimous(s.plates + [p], p);
    FillingRead(reg, s, read);
  }

  /** `n` buffered reads that do not fill the buffer only append their plate `n` times. */
  lemma {:induction false} BufferReads(reg: Records, s: State, read: Option<Read>, n: nat, rest: seq<Option<Read>>)
    requires Inv(reg, s) && !s.ended && |s.plates| + n <= PlateLimit && Buffered(read)
    decreases n
    ensures Inv(reg, s.(plates := s.plates + Repeat(read.value.plate, n)))
    ensures AfterReads(reg, s, Repeat(read, n) + rest) ==
      AfterReads(reg, s.(plates := s.plates + Repeat(read.value.plate, n)), rest)
  {
    var p := read.value.plate;
    if n == 0 {
      assert Repeat(read, n) + rest == rest;
      assert s.plates + Repeat(p, n) == s.plates;
    } else {
      var t := s.(plates := s.plates + [p]);
      RepeatUnfold(read, n, rest);
      RepeatUnfold(p, n, []);
      BufferRead(reg, s, read, Repeat(read, n - 1) + rest);
      BufferReads(reg, t, read, n - 1, rest);
    }
  }

  /**
    Six agreeing reads of a 7-character plate, offered to an empty buffer,
    run one lookup and leave the buffer empty; the log grows by the
    open/request/close triple exactly when the vehicle is approved.
   */
  lemma SixAgreeingReads(reg: Records, s: State, read: Option<Read>)
    requires Inv(reg, s) && !s.ended && s.plates == [] && Buffered(read)
    requires Decide(reg, read.value.plate) != Ambiguous
    ensures AfterReads(reg, s, Repeat(read, PlateLimit + 1)) ==
      s.(actions := s.actions + ActionsFor(Decide(reg, read.value.plate)))
  {
    BufferReads(reg, s, read, PlateLimit, [read]);
    assert s.plates + Repeat(read.value.plate, PlateLimit) == Repeat(read.value.plate, PlateLimit);
    FillingAgreeingRead(reg, s.(plates := Repeat(read.value.plate, PlateLimit)), read);
    assert Repeat(read, PlateLimit) + [read] == Repeat(read, PlateLimit + 1);
  }

  /** The state of one `generate_video` run over a camera stream, against a fixed registry. */
  class Checkpoint {
    const registry: Records
    var frameNumber: nat
    var plateList: seq<string>
    var plateLimit: nat
    var actions: seq<Action>
    var ended: bool

    ghost function Snapshot(): State
      reads this
    {
      State(frameNumber, plateList, actions, ended)
    }

    ghost predicate Valid()
      reads this
    {
      plateLimit == |plateList| && Inv(registry, Snapshot())
    }

    /** The start of `generate_video`: counter 0, empty buffer, empty log. */
    constructor (registry: Records)
      ensures Valid()
      ensures this.registry == registry
      ensures Snapshot() == State(0, [], [], false)
    {
      this.registry := registry;
      frameNumber := 0;
      plateList := [];
      plateLimit := 0;
      actions := [];
      ended := false;
    }

    /**
      The registry lookup for a voted plate, the log entries and gate
      request for an approved vehicle, and the buffer reset. When the
      plate matches more than one row, `get` raises and the stream ends.
     */
    method Resolve(probable: string)
      requires plateLimit == |plateList|
      modifies this
      ensures frameNumber == old(frameNumber)
      ensures Decide(registry, probable) == Ambiguous ==>
        ended && plateList == old(plateList) && plateLimit == old(plateLimit) && actions == old(actions)
      ensures Decide(registry, probable) != Ambiguous ==>
        ended == old(ended) && plateList == [] && plateLimit == 0 &&
        actions == old(actions) + ActionsFor(Decide(registry, probable))
    {
      var found := FindFrom(registry.vehicles, probable, 0);
      if found.Some? {
        if MatchRows(registry.vehicles, probable) > 1 {
          ended := true;
          return;
        }
        var vehicle := registry.vehicles[found.value].id;
        if FirstApproval(registry.checks, vehicle) {
          actions := actions + [Logged(vehicle, GateOpened)];
          actions := actions + [GateOpenRequested];
          actions := actions + [Logged(vehicle, GateClosed)];
        }
      }
      plateLimit := 0;
      plateList := [];
    }

    /** One `read_license_plate` result offered to the buffer; a sixth accepted read emits the voted plate. */
    method Offer(read: Option<Read>) returns (voted: Option<string>)
      requires Valid() && !ended
      modifies this
      ensures Valid()
      ensures Snapshot() == AfterRead(registry, old(Snapshot()), read)
      ensures voted.Some? <==> Buffered(read) && old(plateLimit) == PlateLimit
      ensures voted.Some? ==> voted.value == Vote(old(plateList) + [read.value.plate])
    {
      voted := None;
      if read.Some? {
        var text := read.value.plate;
        if |text| == 7 && read.value.score >= MinScore && plateLimit <= PlateLimit {
          plateList := plateList + [text];
          plateLimit := plateLimit + 1;
        }
        if plateLimit > PlateLimit {
          var probable := Vote(plateList);
          voted := Some(probable);
          Resolve(probable);
        }
      }
      assert Snapshot() == AfterRead(registry, old(Snapshot()), read);
    }

    /** The `for` loop over the detected boxes of a processed frame. */
    method ReadBoxes(boxes: seq<Box>, ocr: Box -> seq<Candidate>)
      requires Valid() && !ended
      modifies this
      ensures Valid()
      ensures Snapshot() == AfterBoxes(registry, old(Snapshot()), boxes, ocr)
    {
      ghost var k := FirstEmptyCrop(boxes);
      ghost var offered := BoxReads(boxes[..k], ocr);
      ghost var crashed := false;
      var i := 0;
      while i < |boxes| && !ended
        invariant 0 <= i <= k
        invariant Valid()
        invariant frameNumber == old(frameNumber)
        invariant !crashed ==>
          AfterReads(registry, old(Snapshot()), offered) == AfterReads(registry, Snapshot(), offered[i..])
        invariant crashed ==>
          i == k < |boxes| && Snapshot() == AfterReads(registry, old(Snapshot()), offered).(ended := true)
        decreases |boxes| - i, if ended then 0 else 1
      {
        var box := Clamp(boxes[i]);
        if EmptyCrop(box) {
          // the colour conversion of the empty crop raises, which ends the stream
          assert offered[i..] == [];
          ended := true;
          crashed := true;
        } else {
          AfterReadsStep(registry, Snapshot(), offered, i);
          var read := ReadLicensePlate(ocr(box));
          var voted := Offer(read);
          i := i + 1;
        }
      }
    }

    /** One pass of the loop body for a frame that was read. */
    method ProcessFrame(f: Frame)
      requires Valid() && !ended
      modifies this
      ensures Valid()
      ensures Snapshot() == AfterFrame(registry, old(Snapshot()), f)
    {
      if frameNumber % (FrameSkip + 1) == 0 && f.triggered {
        ReadBoxes(f.boxes, f.ocr);
      }
      if !ended {
        frameNumber := frameNumber + 1;
      }
    }

    /** The `while True` loop over the frames of a video, until they run out or the stream dies. */
    method Run(frames: seq<Frame>)
      requires Valid()
      modifies this
      ensures Valid()
      ensures Snapshot() == AfterFrames(registry, old(Snapshot()), frames)
    {
      var i := 0;
      while i < |frames| && !ended
        invariant 0 <= i <= |frames|
        invariant Valid()
        invariant AfterFrames(registry, old(Snapshot()), frames) == AfterFrames(registry, Snapshot(), frames[i..])
      {
        assert frames[i..][1..] == frames[i + 1..];
        ProcessFrame(frames[i]);
        i := i + 1;
      }
    }
  }
}
