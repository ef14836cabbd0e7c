/**
  The barrier servo of recognition/views.py (`set_angle`, `_open_gate_thread`),
  as the trace of duty-cycle writes it makes on the PWM output and the
  invalid-angle reports it prints. Sleeps and the GPIO lock are not modelled.
 */
module Servo {

  /** Angle the barrier is driven to when it opens. */
  const OpenAngle: int := 180

  /** Angle the barrier is driven to after the hold. */
  const RestAngle: int := 80

  predicate ValidAngle(angle: int) { 0 <= angle <= 180 }

  /** Duty cycle (percent) for an angle, `angle / 18 + 2`, in exact reals. */
  function Duty(angle: int): (d: real)
    requires ValidAngle(angle)
    ensures 2.0 <= d <= 12.0
    ensures (d - 2.0) * 18.0 == angle as real
  {
    angle as real / 18.0 + 2.0
  }

  /** One observable effect of the servo code. */
  datatype Signal =
    | DutyCycle(duty: real)      // servo.ChangeDutyCycle(duty)
    | AngleRejected(angle: int)  // the "Invalid angle" report; nothing reaches the hardware

  /** The duty values written to the hardware, in order. */
  function Writes(t: seq<Signal>): (w: seq<real>)
    ensures |w| <= |t|
  {
    if t == [] then []
    else (if t[0].DutyCycle? then [t[0].duty] else []) + Writes(t[1..])
  }

  /** What one call of `set_angle(angle)` produces. */
  function AngleSignals(angle: int): (t: seq<Signal>)
    ensures ValidAngle(angle) ==> Writes(t) == [Duty(angle), 0.0]
    ensures !ValidAngle(angle) ==> Writes(t) == [] && AngleRejected(angle) in t
  {
    if ValidAngle(angle) then [DutyCycle(Duty(angle)), DutyCycle(0.0)]
    else [AngleRejected(angle)]
  }

  /** Every drive pulse lies in [2, 12] and is immediately followed by a stop (duty 0). */
  predicate PulsesPaired(t: seq<Signal>) {
    forall i :: 0 <= i < |t| && t[i].DutyCycle? && t[i].duty != 0.0 ==>
      2.0 <= t[i].duty <= 12.0 && i + 1 < |t| && t[i + 1] == DutyCycle(0.0)
  }

  /** The duty the output is left at; `servo.start(0)` leaves it at 0. */
  function LastDuty(t: seq<Signal>): real {
    if t == [] then 0.0
    else if t[|t| - 1].DutyCycle? then t[|t| - 1].duty
    else LastDuty(t[..|t| - 1])
  }

  /** A trace whose pulses are paired leaves the output stopped. */
  lemma {:induction false} PairedEndsStopped(t: seq<Signal>)
    requires PulsesPaired(t)
    ensures LastDuty(t) == 0.0
  {
    if t != [] && !t[|t| - 1].DutyCycle? {
      var prefix := t[..|t| - 1];
      assert forall i :: 0 <= i < |prefix| ==> prefix[i] == t[i];
      PairedEndsStopped(prefix);
    }
  }

  /** Appending a `set_angle` call keeps pulses paired. */
  lemma AngleSignalsKeepPaired(t: seq<Signal>, angle: int)
    requires PulsesPaired(t)
    ensures PulsesPaired(t + AngleSignals(angle))
  {
  }

  /** What one run of `_open_gate_thread` produces. */
  function GateCycle(): (t: seq<Signal>)
    ensures Writes(t) == [12.0, 0.0, 58.0 / 9.0, 0.0]
    ensures PulsesPaired(t) && LastDuty(t) == 0.0
  {
    AngleSignals(OpenAngle) + AngleSignals(RestAngle)
  }

  /** The servo on SERVO_PIN, with the trace of everything it has been told. */
  class Motor {
    var trace: seq<Signal>

    ghost predicate Valid()
      reads this
    {
      PulsesPaired(trace)
    }

    /** `servo.start(0)`: the output starts stopped. */
    constructor ()
      ensures Valid() && trace == [] && LastDuty(trace) == 0.0
    {
      trace := [];
    }

    /** `set_angle`: a valid angle writes its duty and then 0; any other angle is only reported. */
    method SetAngle(angle: int)
      requires Valid()
      modifies this
      ensures Valid()
      ensures trace == old(trace) + AngleSignals(angle)
      ensures Writes(trace[|old(trace)|..]) == if ValidAngle(angle) then [Duty(angle), 0.0] else []
      ensures LastDuty(trace) == 0.0
    {
      AngleSignalsKeepPaired(trace, angle);
      if 0 <= angle <= 180 {
        var duty := angle as real / 18.0 + 2.0;
        trace := trace + [DutyCycle(duty)];
        trace := trace + [DutyCycle(0.0)];
      } else {
        trace := trace + [AngleRejected(angle)];
      }
      assert trace[|old(trace)|..] == AngleSignals(angle);
      PairedEndsStopped(trace);
    }

    /** `_open_gate_thread`: drive to the open angle, then to the rest angle. */
    method OpenGateCycle()
      requires Valid()
      modifies this
      ensures Valid()
      ensures trace == old(trace) + GateCycle()
      ensures LastDuty(trace) == 0.0
    {
      SetAngle(OpenAngle);
      SetAngle(RestAngle);
    }
  }
}
