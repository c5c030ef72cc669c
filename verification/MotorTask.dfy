/**
 The bodies of the two tasks as the source writes them: statements that read and update the shared command and write
 pins one after the other. Each is tied to the function of module Motor that the interleaved system uses.
 */
module MotorTask {
  import M = Motor

  datatype Pin = LED_PIN | IN1_M1 | IN2_M1

  datatype Channel = PWM_CHAN_LEFT | PWM_CHAN_RPWM | PWM_CHAN_LPWM

  /** The outputs, and the order in which they were written. */
  class Hardware {
    var pins: M.Pins
    ghost var log: seq<M.Write>

    ghost predicate Valid()
      reads this
    {
      pins == M.ApplyAll(M.OFF, log)
    }

    constructor ()
      ensures Valid() && log == []
    {
      pins, log := M.OFF, [];
    }

    method Write(w: M.Write)
      requires Valid()
      modifies this
      ensures Valid() && log == old(log) + [w] && pins == M.Apply(old(pins), w)
    {
      M.ApplyConcat(M.OFF, log, [w]);
      assert [w][1..] == [];
      pins := M.Apply(pins, w);
      ghost var after := log + [w];
      log := after;
    }

    method DigitalWrite(pin: Pin, high: bool)
      requires Valid()
      modifies this
      ensures Valid()
      ensures log == old(log) +
        [match pin case LED_PIN => M.Led(high) case IN1_M1 => M.In1(high) case IN2_M1 => M.In2(high)]
    {
      match pin {
        case LED_PIN => Write(M.Led(high));
        case IN1_M1 => Write(M.In1(high));
        case IN2_M1 => Write(M.In2(high));
      }
    }

    method LedcWrite(channel: Channel, duty: int)
      requires Valid()
      modifies this
      ensures Valid()
      ensures log == old(log) +
        [match channel case PWM_CHAN_LEFT => M.Left(duty) case PWM_CHAN_RPWM => M.Rpwm(duty)
         case PWM_CHAN_LPWM => M.Lpwm(duty)]
    {
      match channel {
        case PWM_CHAN_LEFT => Write(M.Left(duty));
        case PWM_CHAN_RPWM => Write(M.Rpwm(duty));
        case PWM_CHAN_LPWM => Write(M.Lpwm(duty));
      }
    }
  }

  class Robot {
    const hardware: Hardware
    var v: real
    var w: real
    var lastUpdate: nat

    constructor ()
      ensures Shared() == M.Command(0.0, 0.0, 0)
      ensures fresh(hardware) && hardware.Valid() && hardware.log == []
    {
      v, w, lastUpdate := 0.0, 0.0, 0;
      hardware := new Hardware();
    }

    function Shared(): M.Command
      reads this
    {
      M.Command(v, w, lastUpdate)
    }

    method Stop()
      requires hardware.Valid()
      modifies hardware
      ensures hardware.Valid() && hardware.log == old(hardware.log) + M.StopWrites()
    {
      hardware.LedcWrite(PWM_CHAN_LEFT, 0);
      hardware.LedcWrite(PWM_CHAN_RPWM, 0);
      hardware.LedcWrite(PWM_CHAN_LPWM, 0);
      hardware.DigitalWrite(IN1_M1, false);
      hardware.DigitalWrite(IN2_M1, false);
      hardware.DigitalWrite(LED_PIN, false);
    }

    method DriveLeft(vLeft: real)
      requires hardware.Valid()
      modifies hardware
      ensures hardware.Valid() && hardware.log == old(hardware.log) + M.LeftWrites(vLeft)
    {
      var pwmLeft := M.Duty(vLeft);
      if vLeft > 0.0 {
        hardware.DigitalWrite(IN1_M1, true);
        hardware.DigitalWrite(IN2_M1, false);
      } else if vLeft < 0.0 {
        hardware.DigitalWrite(IN1_M1, false);
        hardware.DigitalWrite(IN2_M1, true);
      } else {
        hardware.DigitalWrite(IN1_M1, false);
        hardware.DigitalWrite(IN2_M1, false);
      }
      hardware.LedcWrite(PWM_CHAN_LEFT, pwmLeft);
    }

    method DriveRight(vRight: real)
      requires hardware.Valid()
      modifies hardware
      ensures hardware.Valid() && hardware.log == old(hardware.log) + M.RightWrites(vRight)
    {
      var pwmRight := M.Duty(vRight);
      if vRight > 0.0 {
        hardware.LedcWrite(PWM_CHAN_LPWM, 0);
        hardware.LedcWrite(PWM_CHAN_RPWM, pwmRight);
      } else if vRight < 0.0 {
        hardware.LedcWrite(PWM_CHAN_RPWM, 0);
        hardware.LedcWrite(PWM_CHAN_LPWM, pwmRight);
      } else {
        hardware.LedcWrite(PWM_CHAN_RPWM, 0);
        hardware.LedcWrite(PWM_CHAN_LPWM, 0);
      }
    }

    /** One pass of the loop in `Task_Control`, with `millis()` at the decision. */
    method Tick(millis: nat)
      requires hardware.Valid() && M.Sound(hardware.pins)
      modifies hardware
      ensures hardware.Valid() && hardware.log == old(hardware.log) + M.TickWrites(Shared(), millis)
      ensures hardware.pins == M.Intended(Shared(), millis) && M.Sound(hardware.pins)
    {
      hide M.Apply, M.ApplyAll, M.Duty, M.Intended, M.LeftWrites, M.RightWrites, M.StopWrites, M.SoundThroughout;
      M.TickOutcome(hardware.pins, Shared(), millis);
      M.ApplyConcat(M.OFF, hardware.log, M.TickWrites(Shared(), millis));
      var vLocal, wLocal, timeLocal := v, w, lastUpdate;
      if (millis - timeLocal) % M.WRAP > M.WATCHDOG_TIMEOUT_MS {
        Stop();
      } else {
        hardware.DigitalWrite(LED_PIN, !(vLocal == 0.0 && wLocal == 0.0));
        var vLeftRaw := vLocal - wLocal * M.WHEEL_BASE / 2.0;
        var vRightRaw := vLocal + wLocal * M.WHEEL_BASE / 2.0;
        var vLeft := vLeftRaw * 1.0 + vRightRaw * 0.0;
        var vRight := vLeftRaw * 0.0 + vRightRaw * 0.95;
        DriveLeft(vLeft);
        DriveRight(vRight);
      }
    }

    /** `taken` says whether the mutex could be taken in time; `millis` is the clock when the time is stored. */
    method WebSocketEvent(e: M.Event, taken: bool, millis: nat)
      modifies this
      ensures var r := M.Request(e);
        Shared() ==
          if !taken || r.None? then old(Shared())
          else M.Command(r.value.v, r.value.w, if r.value.stamps then millis else old(lastUpdate))
    {
      match e {
        case Disconnected =>
          if taken {
            v, w := 0.0, 0.0;
          }
        case Connected =>
        case Text(message, speed) =>
          var commaIndex := M.CommaAt(message);
          if message == "P" {
            if taken {
              v, w := 0.0, 0.0;
              lastUpdate := millis;
            }
          } else if 0 < commaIndex < |message| {
            var dir := message[..commaIndex];
            var targetV, targetW := 0.0, 0.0;
            var angularMultiplier := 2.0 / M.WHEEL_BASE;
            if dir == "F" {
              targetV := speed;
            } else if dir == "T" {
              targetV := -speed;
            } else if dir == "E" {
              targetW := speed * angularMultiplier;
            } else if dir == "D" {
              targetW := -speed * angularMultiplier;
            }
            if taken {
              v, w := targetV, targetW;
              lastUpdate := millis;
            }
          }
      }
    }
  }
}
