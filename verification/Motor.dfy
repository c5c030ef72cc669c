/**
 The two tasks of the robot's motor controller: one drives the pins from the shared command every 20 ms, the other
 stores the commands that arrive over the WebSocket. They run in any interleaving, down to single reads, single
 stores and single pin writes; only the mutex orders them.
 */
module Motor {
  import opened Bytes

  const WHEEL_BASE: real := 0.2125
  const MAX_SPEED: real := 0.3
  const MAX_PWM: real := 1605.0
  const MIN_PWM: real := 480.0
  const WATCHDOG_TIMEOUT_MS := 500

  /** `millis()` counts in 32 bits. */
  const WRAP: nat := 0x1_0000_0000

  // ---------------------------------------------------------------- what one tick writes

  function Abs(x: real): real {
    if x < 0.0 then -x else x
  }

  /** `calculate_pwm_with_deadband`; the cast to int drops the fraction. */
  function Duty(velocity: real): (d: int)
    ensures d == 0 <==> Abs(velocity) < 0.01
    ensures d != 0 ==> 517 <= d <= 1605
    ensures d == 1605 <==> Abs(velocity) >= MAX_SPEED
  {
    var speed := Abs(velocity);
    if speed < 0.01 then 0
    else
      var limited := if speed > MAX_SPEED then MAX_SPEED else speed;
      (MIN_PWM + limited / MAX_SPEED * (MAX_PWM - MIN_PWM)).Floor
  }

  lemma DutyMonotone(a: real, b: real)
    requires Abs(a) <= Abs(b)
    ensures Duty(a) <= Duty(b)
  {
  }

  /** From the dead band to the maximum speed the duty rises linearly, in either direction, by 3750 for 1 m/s. */
  lemma DutyBetween(speed: real)
    requires 0.01 <= speed <= 0.3
    ensures Duty(-speed) == Duty(speed)
    ensures 480.0 + 3750.0 * speed - 1.0 < Duty(speed) as real <= 480.0 + 3750.0 * speed
  {
  }

  datatype Pins = Pins(led: bool, in1: bool, in2: bool, left: int, rpwm: int, lpwm: int)

  const OFF: Pins := Pins(false, false, false, 0, 0, 0)

  datatype Write = Led(on: bool) | In1(on: bool) | In2(on: bool) | Left(duty: int) | Rpwm(duty: int) | Lpwm(duty: int)

  function Apply(p: Pins, w: Write): Pins {
    match w
    case Led(on) => p.(led := on)
    case In1(on) => p.(in1 := on)
    case In2(on) => p.(in2 := on)
    case Left(duty) => p.(left := duty)
    case Rpwm(duty) => p.(rpwm := duty)
    case Lpwm(duty) => p.(lpwm := duty)
  }

  function ApplyAll(p: Pins, ws: seq<Write>): Pins
    decreases |ws|
  {
    if ws == [] then p else ApplyAll(Apply(p, ws[0]), ws[1..])
  }

  lemma {:induction false} ApplyConcat(p: Pins, a: seq<Write>, b: seq<Write>)
    ensures ApplyAll(p, a + b) == ApplyAll(ApplyAll(p, a), b)
    decreases |a|
  {
    if a == [] {
      assert a + b == b;
    } else {
      assert (a + b)[0] == a[0] && (a + b)[1..] == a[1..] + b;
      ApplyConcat(Apply(p, a[0]), a[1..], b);
    }
  }

  datatype Command = Command(v: real, w: real, last: nat)

  /** The speeds of the two wheels after calibration. */
  function Wheels(v: real, w: real): (real, real) {
    var leftRaw := v - w * WHEEL_BASE / 2.0;
    var rightRaw := v + w * WHEEL_BASE / 2.0;
    (leftRaw * 1.0 + rightRaw * 0.0, leftRaw * 0.0 + rightRaw * 0.95)
  }

  function StopWrites(): seq<Write> {
    [Left(0), Rpwm(0), Lpwm(0), In1(false), In2(false), Led(false)]
  }

  function LeftWrites(left: real): seq<Write> {
    [In1(left > 0.0), In2(left < 0.0), Left(Duty(left))]
  }

  function RightWrites(right: real): seq<Write> {
    if right > 0.0 then [Lpwm(0), Rpwm(Duty(right))]
    else if right < 0.0 then [Rpwm(0), Lpwm(Duty(right))]
    else [Rpwm(0), Lpwm(0)]
  }

  function DriveWrites(v: real, w: real): seq<Write> {
    var (left, right) := Wheels(v, w);
    [Led(!(v == 0.0 && w == 0.0))] + LeftWrites(left) + RightWrites(right)
  }

  /** The unsigned difference of the clock and the time of the command, compared with the timeout. */
  predicate Stale(cmd: Command, millis: nat) {
    (millis - cmd.last) % WRAP > WATCHDOG_TIMEOUT_MS
  }

  function TickWrites(cmd: Command, millis: nat): seq<Write> {
    if Stale(cmd, millis) then StopWrites() else DriveWrites(cmd.v, cmd.w)
  }

  /** What the pins show when a tick is over. */
  function Intended(cmd: Command, millis: nat): Pins {
    if Stale(cmd, millis) then OFF
    else
      var (left, right) := Wheels(cmd.v, cmd.w);
      Pins(!(cmd.v == 0.0 && cmd.w == 0.0), left > 0.0, left < 0.0, Duty(left),
           if right > 0.0 then Duty(right) else 0, if right < 0.0 then Duty(right) else 0)
  }

  /** The half bridge is never driven from both sides, and every duty is in range. */
  predicate Sound(p: Pins) {
    (p.rpwm == 0 || p.lpwm == 0) && 0 <= p.left <= 1605 && 0 <= p.rpwm <= 1605 && 0 <= p.lpwm <= 1605
  }

  /** `Sound` now and after each of the writes. */
  predicate SoundThroughout(p: Pins, ws: seq<Write>)
    decreases |ws|
  {
    Sound(p) && (ws == [] || SoundThroughout(Apply(p, ws[0]), ws[1..]))
  }

  lemma {:induction false} SoundConcat(p: Pins, a: seq<Write>, b: seq<Write>)
    requires SoundThroughout(p, a) && SoundThroughout(ApplyAll(p, a), b)
    ensures SoundThroughout(p, a + b)
    decreases |a|
  {
    if a == [] {
      assert a + b == b;
    } else {
      assert (a + b)[0] == a[0] && (a + b)[1..] == a[1..] + b;
      SoundConcat(Apply(p, a[0]), a[1..], b);
    }
  }

  lemma Single(p: Pins, w: Write)
    requires Sound(p) && Sound(Apply(p, w))
    ensures SoundThroughout(p, [w]) && ApplyAll(p, [w]) == Apply(p, w)
  {
    assert [w][1..] == [];
  }

  lemma Both(p: Pins, a: Write, b: Write)
    requires Sound(p) && Sound(Apply(p, a)) && Sound(Apply(Apply(p, a), b))
    ensures SoundThroughout(p, [a, b]) && ApplyAll(p, [a, b]) == Apply(Apply(p, a), b)
  {
    Single(Apply(p, a), b);
    assert [a, b][1..] == [b];
  }

  lemma Three(p: Pins, a: Write, b: Write, c: Write)
    requires Sound(p) && Sound(Apply(p, a)) && Sound(Apply(Apply(p, a), b)) && Sound(Apply(Apply(Apply(p, a), b), c))
    ensures SoundThroughout(p, [a, b, c]) && ApplyAll(p, [a, b, c]) == Apply(Apply(Apply(p, a), b), c)
  {
    Both(Apply(p, a), b, c);
    assert [a, b, c][1..] == [b, c];
  }

  /** From any sound pins, a tick sets every output, and no write on the way drives both sides of the bridge. */
  lemma TickOutcome(p: Pins, cmd: Command, millis: nat)
    requires Sound(p)
    ensures SoundThroughout(p, TickWrites(cmd, millis))
    ensures ApplyAll(p, TickWrites(cmd, millis)) == Intended(cmd, millis)
    ensures Sound(Intended(cmd, millis))
  {
    hide Duty, StopWrites, Apply;
    if Stale(cmd, millis) {
      StopOutcome(p);
    } else {
      var (left, right) := Wheels(cmd.v, cmd.w);
      var on := !(cmd.v == 0.0 && cmd.w == 0.0);
      LedOutcome(p, on);
      var p1 := Apply(p, Led(on));
      DriveOutcome(p1, left, right);
      SoundConcat(p, [Led(on)], LeftWrites(left) + RightWrites(right));
      ApplyConcat(p, [Led(on)], LeftWrites(left) + RightWrites(right));
      assert DriveWrites(cmd.v, cmd.w) == [Led(on)] + (LeftWrites(left) + RightWrites(right));
    }
  }

  lemma StopOutcome(p: Pins)
    requires Sound(p)
    ensures SoundThroughout(p, StopWrites()) && ApplyAll(p, StopWrites()) == OFF
  {
    var a, b := [Left(0), Rpwm(0), Lpwm(0)], [In1(false), In2(false), Led(false)];
    var q := p.(left := 0, rpwm := 0, lpwm := 0);
    Three(p, Left(0), Rpwm(0), Lpwm(0));
    Three(q, In1(false), In2(false), Led(false));
    SoundConcat(p, a, b);
    ApplyConcat(p, a, b);
    assert StopWrites() == a + b;
  }

  lemma LedOutcome(p: Pins, on: bool)
    requires Sound(p)
    ensures Apply(p, Led(on)) == ApplyAll(p, [Led(on)]) == p.(led := on) && SoundThroughout(p, [Led(on)])
  {
    Single(p, Led(on));
  }

  lemma DriveOutcome(p: Pins, left: real, right: real)
    requires Sound(p)
    ensures SoundThroughout(p, LeftWrites(left) + RightWrites(right))
    ensures ApplyAll(p, LeftWrites(left) + RightWrites(right)) ==
      Pins(p.led, left > 0.0, left < 0.0, Duty(left), if right > 0.0 then Duty(right) else 0,
           if right < 0.0 then Duty(right) else 0)
  {
    hide Duty;
    assert 0 <= Duty(left) <= 1605 && 0 <= Duty(right) <= 1605;
    Three(p, In1(left > 0.0), In2(left < 0.0), Left(Duty(left)));
    var q := p.(in1 := left > 0.0, in2 := left < 0.0, left := Duty(left));
    assert ApplyAll(p, LeftWrites(left)) == q;
    if right > 0.0 {
      Both(q, Lpwm(0), Rpwm(Duty(right)));
    } else if right < 0.0 {
      Both(q, Rpwm(0), Lpwm(Duty(right)));
    } else {
      Both(q, Rpwm(0), Lpwm(0));
    }
    SoundConcat(p, LeftWrites(left), RightWrites(right));
    ApplyConcat(p, LeftWrites(left), RightWrites(right));
  }

  /**
   The inputs of the other bridge are not kept apart in the same way: going from reverse to forward raises IN1 while
   IN2 is still up, and this is the only way to have both up.
   */
  lemma BothInputsExact(p: Pins, left: real)
    requires !(p.in1 && p.in2)
    ensures var mid := Apply(p, LeftWrites(left)[0]);
      var end := Apply(mid, LeftWrites(left)[1]);
      (mid.in1 && mid.in2 <==> p.in2 && left > 0.0) && !(end.in1 && end.in2)
  {
  }

  // ---------------------------------------------------------------- what a message asks for

  datatype Event = Disconnected | Connected | Text(message: string, speed: real)

  /** The values to store, and whether the time is stored with them. */
  datatype Update = Update(v: real, w: real, stamps: bool)

  /** Index of the first comma, or the length. */
  function CommaAt(s: string): (i: nat)
    ensures i <= |s| && ',' !in s[..i] && (i < |s| ==> s[i] == ',')
  {
    if s == "" || s[0] == ',' then 0
    else
      var i := 1 + CommaAt(s[1..]);
      assert s[..i] == [s[0]] + s[1..][..i - 1];
      i
  }

  /** The target of a direction; an unknown one asks for a halt. */
  function Target(dir: string, speed: real): (real, real) {
    if dir == "F" then (speed, 0.0)
    else if dir == "T" then (-speed, 0.0)
    else if dir == "E" then (0.0, speed * (2.0 / WHEEL_BASE))
    else if dir == "D" then (0.0, -speed * (2.0 / WHEEL_BASE))
    else (0.0, 0.0)
  }

  /** `speed` is the number that the text after the comma spells. */
  function Request(e: Event): Option<Update> {
    match e
    case Disconnected => Some(Update(0.0, 0.0, false))
    case Connected => None
    case Text(message, speed) =>
      var comma := CommaAt(message);
      if message == "P" then Some(Update(0.0, 0.0, true))
      else if 0 < comma < |message| then
        var (v, w) := Target(message[..comma], speed);
        Some(Update(v, w, true))
      else None
  }

  lemma RequestStamps(e: Event)
    ensures Request(e).Some? ==> (Request(e).value.stamps <==> e.Text?)
    ensures e.Disconnected? ==> Request(e) == Some(Update(0.0, 0.0, false))
    ensures Request(e).None? <==>
      e.Connected? || (e.Text? && e.message != "P" && CommaAt(e.message) in {0, |e.message|})
  {
  }

  /** Straight on, both wheels turn the same way; to a side, they turn against each other. The right one is trimmed. */
  lemma WheelsOfTarget(dir: string, speed: real)
    ensures var (v, w) := Target(dir, speed);
      Wheels(v, w) ==
        if dir == "F" then (speed, speed * 0.95)
        else if dir == "T" then (-speed, -speed * 0.95)
        else if dir == "E" then (-speed, speed * 0.95)
        else if dir == "D" then (speed, -speed * 0.95)
        else (0.0, 0.0)
  {
    var w := speed * (2.0 / WHEEL_BASE);
    assert w * WHEEL_BASE / 2.0 == speed;
  }

  lemma {:induction false} CommaBehind(dir: string, rest: string)
    requires ',' !in dir
    ensures CommaAt(dir + "," + rest) == |dir|
  {
    var s := dir + "," + rest;
    if dir == "" {
      assert s[0] == ',';
    } else {
      assert s[0] == dir[0] && s[1..] == dir[1..] + "," + rest;
      CommaBehind(dir[1..], rest);
    }
  }

  /** What the texts of the page ask of the wheels: a direction in front of the comma, or a single `P` for a halt. */
  lemma MessageAsks(dir: string, rest: string, speed: real)
    requires dir != "" && ',' !in dir
    ensures var r := Request(Text(dir + "," + rest, speed));
      && r.Some? && r.value.stamps
      && Wheels(r.value.v, r.value.w) ==
           if dir == "F" then (speed, speed * 0.95)
           else if dir == "T" then (-speed, -speed * 0.95)
           else if dir == "E" then (-speed, speed * 0.95)
           else if dir == "D" then (speed, -speed * 0.95)
           else (0.0, 0.0)
    ensures Request(Text("P", speed)) == Some(Update(0.0, 0.0, true))
  {
    var message := dir + "," + rest;
    CommaBehind(dir, rest);
    assert message[..|dir|] == dir && message[|dir|] == ',' && |message| > |dir|;
    assert message != "P" by {
      assert ',' in message && ',' !in "P";
    }
    WheelsOfTarget(dir, speed);
    hide Wheels, Target;
  }

  // ---------------------------------------------------------------- the two tasks

  datatype Owner = Free | ByControl | ByWeb

  /** Where the control task stands; `Writing` holds the pin writes it has still to make. */
  datatype Control = Wait | ReadV | ReadW | ReadLast | Give | Decide | Writing(pending: seq<Write>)

  datatype Web =
    Listen | Want(u: Update) | StoreV(u: Update) | StoreW(u: Update) | StoreLast(u: Update) | Release(u: Update)

  /**
   `time` is the true time in ms. The rest is history: `commands` holds every complete value the shared command has
   had; `accepted` and `localAccepted` are the true times behind `shared.last` and `local.last`; `goal` is what the
   last decision wants the pins to show and `ticks` counts the ticks that are over.
   */
  datatype System = System(
    time: nat, mutex: Owner, shared: Command, web: Web,
    control: Control, local: Command, pins: Pins,
    commands: seq<Command>, accepted: nat, localAccepted: nat, goal: Pins, ticks: nat)

  datatype Action = Elapse(ms: nat) | ControlStep | Arrive(event: Event) | WebStep | GiveUp

  function Start(): System {
    var c := Command(0.0, 0.0, 0);
    System(0, Free, c, Listen, Wait, c, OFF, [c], 0, 0, OFF, 0)
  }

  function StepControl(s: System): System {
    match s.control
    case Wait => if s.mutex.Free? then s.(mutex := ByControl, control := ReadV) else s
    case ReadV => s.(local := s.local.(v := s.shared.v), control := ReadW)
    case ReadW => s.(local := s.local.(w := s.shared.w), control := ReadLast)
    case ReadLast => s.(local := s.local.(last := s.shared.last), localAccepted := s.accepted, control := Give)
    case Give => s.(mutex := Free, control := Decide)
    case Decide =>
      var millis := s.time % WRAP;
      s.(control := Writing(TickWrites(s.local, millis)), goal := Intended(s.local, millis))
    case Writing(ws) =>
      if ws == [] then s.(control := Wait, ticks := s.ticks + 1)
      else s.(pins := Apply(s.pins, ws[0]), control := Writing(ws[1..]))
  }

  function StepWeb(s: System): System {
    match s.web
    case Listen => s
    case Want(u) => if s.mutex.Free? then s.(mutex := ByWeb, web := StoreV(u)) else s
    case StoreV(u) => s.(shared := s.shared.(v := u.v), web := StoreW(u))
    case StoreW(u) => s.(shared := s.shared.(w := u.w), web := if u.stamps then StoreLast(u) else Release(u))
    case StoreLast(u) => s.(shared := s.shared.(last := s.time % WRAP), accepted := s.time, web := Release(u))
    case Release(u) => s.(mutex := Free, commands := s.commands + [s.shared], web := Listen)
  }

  /** An action that cannot happen in a state leaves it as it is. */
  function Step(s: System, a: Action): System {
    match a
    case Elapse(ms) => s.(time := s.time + ms)
    case ControlStep => StepControl(s)
    case WebStep => StepWeb(s)
    case Arrive(e) =>
      var r := Request(e);
      if s.web.Listen? && r.Some? then s.(web := Want(r.value)) else s
    case GiveUp => if s.web.Want? then s.(web := Listen) else s
  }

  function Run(s: System, actions: seq<Action>): System
    decreases |actions|
  {
    if actions == [] then s else Run(Step(s, actions[0]), actions[1..])
  }

  predicate Holds(c: Control) {
    c.ReadV? || c.ReadW? || c.ReadLast? || c.Give?
  }

  predicate Stores(w: Web) {
    w.StoreV? || w.StoreW? || w.StoreLast? || w.Release?
  }

  /** The mutex is held by at most one task, and the shared command is complete unless the web task holds it. */
  predicate Locked(s: System) {
    && (s.mutex.ByControl? <==> Holds(s.control))
    && (s.mutex.ByWeb? <==> Stores(s.web))
    && s.commands != []
    && (!s.mutex.ByWeb? ==> s.shared == s.commands[|s.commands| - 1])
  }

  /** What the control task has read so far is one complete command. */
  predicate Snapshot(s: System) {
    && (s.control.ReadW? || s.control.ReadLast? || s.control.Give? ==> s.local.v == s.shared.v)
    && (s.control.ReadLast? || s.control.Give? ==> s.local.w == s.shared.w)
    && (s.control.Give? ==> s.local.last == s.shared.last)
    && (s.control.Decide? || s.control.Writing? ==> s.local in s.commands)
  }

  /** What the web task has stored so far is its update. */
  predicate Stored(s: System)
    requires Locked(s)
  {
    && (s.web.StoreW? || s.web.StoreLast? || s.web.Release? ==> s.shared.v == s.web.u.v)
    && (s.web.StoreLast? || s.web.Release? ==> s.shared.w == s.web.u.w)
    && (s.web.StoreLast? ==> s.web.u.stamps)
    && (s.mutex.ByWeb? && !(s.web.Release? && s.web.u.stamps) ==> s.shared.last == s.commands[|s.commands| - 1].last)
  }

  /** The stored times are the true ones, as far as 32 bits tell. */
  predicate Clocked(s: System) {
    && s.shared.last == s.accepted % WRAP && s.local.last == s.localAccepted % WRAP
    && s.localAccepted <= s.accepted <= s.time
  }

  predicate Driven(s: System) {
    && Sound(s.pins)
    && (if s.control.Writing?
        then SoundThroughout(s.pins, s.control.pending) && ApplyAll(s.pins, s.control.pending) == s.goal
        else s.pins == s.goal)
  }

  predicate Inv(s: System) {
    Locked(s) && Snapshot(s) && Stored(s) && Clocked(s) && Driven(s)
  }

  lemma StepKeepsDriven(s: System, a: Action)
    requires Driven(s)
    ensures Driven(Step(s, a))
  {
    hide Duty, TickWrites, Intended, Request;
    if a.ControlStep? && s.control.Decide? {
      TickOutcome(s.pins, s.local, s.time % WRAP);
    } else if a.ControlStep? && s.control.Writing? {
      assert SoundThroughout(s.pins, s.control.pending);
      assert s.control.pending == [] ==> ApplyAll(s.pins, s.control.pending) == s.pins;
    }
  }

  lemma StepKeeps(s: System, a: Action)
    requires Inv(s)
    ensures Inv(Step(s, a))
  {
    hide Duty, TickWrites, Intended, Request, Driven, SoundThroughout, ApplyAll;
    StepKeepsDriven(s, a);
  }

  /**
   Main result, for every interleaving: at every moment, also between two pin writes, at most one side of the half
   bridge is driven and every duty is at most 1605; what the control task acts on is a command that was stored as a
   whole; between ticks the pins show exactly what the last decision wants.
   */
  lemma {:induction false} RunKeeps(s: System, actions: seq<Action>)
    requires Inv(s)
    ensures Inv(Run(s, actions))
    ensures var e := Run(s, actions);
      && Sound(e.pins)
      && (e.control.Decide? || e.control.Writing? ==> e.local in e.commands)
      && (!e.control.Writing? ==> e.pins == e.goal)
    decreases |actions|
  {
    hide Step;
    if actions != [] {
      StepKeeps(s, actions[0]);
      RunKeeps(Step(s, actions[0]), actions[1..]);
    }
  }

  /** The commands are the updates that got the mutex, each as a whole; one without a stamp keeps the time before it. */
  lemma StoresWhole(s: System)
    requires Inv(s) && s.web.Release?
    ensures var u := s.web.u;
      var before := s.commands[|s.commands| - 1];
      StepWeb(s).commands ==
        s.commands + [Command(u.v, u.w, if u.stamps then s.accepted % WRAP else before.last)]
  {
    hide Driven;
  }

  lemma StartsWell()
    ensures Inv(Start())
  {
  }

  // ---------------------------------------------------------------- the watchdog

  /** The watchdog's test in true time: it fires exactly when the age of the command, modulo 2^32 ms, is over 500 ms. */
  lemma StaleExact(s: System)
    requires Clocked(s)
    ensures Stale(s.local, s.time % WRAP) <==> (s.time - s.localAccepted) % WRAP > WATCHDOG_TIMEOUT_MS
    ensures 500 < s.time - s.localAccepted < WRAP ==> Stale(s.local, s.time % WRAP)
  {
    ModDifference(s.time, s.localAccepted);
  }

  lemma ModDifference(a: nat, b: nat)
    ensures (a % WRAP - b % WRAP) % WRAP == (a - b) % WRAP
  {
    var k := a / WRAP - b / WRAP;
    assert a - b == k * WRAP + (a % WRAP - b % WRAP);
  }

  /** What the pins show for a command that is not too old. */
  function Fresh(v: real, w: real): Pins {
    Intended(Command(v, w, 0), 0)
  }

  /** So every decision is for what a fresh command would get, or for nothing. */
  lemma DecisionExact(s: System)
    requires Clocked(s) && s.control.Decide?
    ensures StepControl(s).goal ==
      if (s.time - s.localAccepted) % WRAP > WATCHDOG_TIMEOUT_MS then OFF else Fresh(s.local.v, s.local.w)
  {
    StaleExact(s);
    hide Duty;
  }

  /** A message arrives, is stored, and is read for the next decision `age` ms later. */
  function Aged(e: Event, age: nat): seq<Action> {
    [Arrive(e), WebStep, WebStep, WebStep, WebStep, WebStep, Elapse(age)]
    + [ControlStep, ControlStep, ControlStep, ControlStep, ControlStep, ControlStep]
  }

  lemma {:induction false} RunConcat(s: System, a: seq<Action>, b: seq<Action>)
    ensures Run(s, a + b) == Run(Run(s, a), b)
    decreases |a|
  {
    hide Step;
    if a == [] {
      assert a + b == b;
    } else {
      assert (a + b)[0] == a[0] && (a + b)[1..] == a[1..] + b;
      RunConcat(Step(s, a[0]), a[1..], b);
    }
  }

  lemma RunTwo(s: System, a: Action, b: Action)
    ensures Run(s, [a, b]) == Step(Step(s, a), b)
  {
    hide Step;
    assert [a, b][1..] == [b] && [b][1..] == [];
    assert Run(s, [a, b]) == Run(Step(s, a), [b]) == Run(Step(Step(s, a), b), []);
  }

  lemma RunSix(s: System, a: seq<Action>)
    requires |a| == 6
    ensures Run(s, a) == Step(Step(Step(Step(Step(Step(s, a[0]), a[1]), a[2]), a[3]), a[4]), a[5])
  {
    hide Step;
    var t := Step(Step(s, a[0]), a[1]);
    var t' := Step(Step(t, a[2]), a[3]);
    RunTwo(s, a[0], a[1]);
    RunTwo(t, a[2], a[3]);
    RunTwo(t', a[4], a[5]);
    RunConcat(s, [a[0], a[1]], [a[2], a[3]] + [a[4], a[5]]);
    RunConcat(t, [a[2], a[3]], [a[4], a[5]]);
    assert a == [a[0], a[1]] + ([a[2], a[3]] + [a[4], a[5]]);
  }

  /** The system when a message has been stored and `age` ms have gone by. */
  lemma StoredSince(e: Event, age: nat)
    requires e.Text? && Request(e).Some?
    ensures var (u, s) := (Request(e).value, Run(Start(), Aged(e, age)[..7]));
      && s.time == age && s.accepted == 0 && s.mutex.Free? && s.control.Wait? && s.shared == Command(u.v, u.w, 0)
  {
    hide Request, Intended;
    RequestStamps(e);
    var a := [Arrive(e), WebStep, WebStep, WebStep, WebStep, WebStep];
    RunSix(Start(), a);
    RunConcat(Start(), a, [Elapse(age)]);
    assert Aged(e, age)[..7] == a + [Elapse(age)];
    assert [Elapse(age)][1..] == [];
  }

  /**
   For every message that asks for something and every age, a run from the start that decides about it at that age: 2^32
   ms after it was accepted, the watchdog lets it through for another half second.
   */
  lemma WatchdogWraps(e: Event, age: nat)
    requires e.Text? && Request(e).Some?
    ensures var (u, s) := (Request(e).value, Run(Start(), Aged(e, age)));
      && s.control.Writing? && s.time == s.localAccepted + age
      && s.goal == if age % WRAP > WATCHDOG_TIMEOUT_MS then OFF else Fresh(u.v, u.w)
  {
    var steps := seq(6, i => ControlStep);
    var s := Run(Start(), Aged(e, age)[..7]);
    StoredSince(e, age);
    hide Request, Duty, TickWrites;
    RunConcat(Start(), Aged(e, age)[..7], steps);
    assert Aged(e, age) == Aged(e, age)[..7] + steps;
    RunSix(s, steps);
  }

  lemma PendingAfter(e: Event, age: nat)
    requires e.Text? && Request(e).Some?
    ensures var s := Run(Start(), Aged(e, age)); s.control.Writing? && |s.control.pending| == 6
  {
    var steps := seq(6, i => ControlStep);
    var s := Run(Start(), Aged(e, age)[..7]);
    StoredSince(e, age);
    SixWrites(Command(s.shared.v, s.shared.w, s.shared.last), s.time % WRAP);
    hide Request, Duty, TickWrites, Intended;
    RunConcat(Start(), Aged(e, age)[..7], steps);
    assert Aged(e, age) == Aged(e, age)[..7] + steps;
    RunSix(s, steps);
  }

  /** The control task carries out the writes it has still to make, and goes on to its next tick. */
  lemma {:induction false} WritesOut(s: System, n: nat)
    requires Driven(s) && s.control.Writing? && |s.control.pending| == n
    ensures var e := Run(s, seq(n + 1, i => ControlStep)); e.control == Wait && e.pins == e.goal == s.goal
    decreases n
  {
    var steps := seq(n + 1, i => ControlStep);
    assert steps[0] == ControlStep && steps[1..] == seq(n, i => ControlStep);
    var t := Step(s, ControlStep);
    StepKeepsDriven(s, ControlStep);
    hide Step;
    assert Run(s, steps) == Run(t, steps[1..]);
    if n > 0 {
      NextWrite(s);
      WritesOut(t, n - 1);
    } else {
      NothingPending(s);
      assert steps[1..] == [];
    }
  }

  lemma NextWrite(s: System)
    requires s.control.Writing? && s.control.pending != []
    ensures var t := Step(s, ControlStep);
      t.control == Writing(s.control.pending[1..]) && t.goal == s.goal
  {
  }

  lemma NothingPending(s: System)
    requires Driven(s) && s.control.Writing? && s.control.pending == []
    ensures var t := Step(s, ControlStep); t.control == Wait && t.pins == t.goal == s.goal
  {
  }

  /** A message arrives, is stored and, `age` ms later, carried out to the last pin. */
  function CarriedOut(e: Event, age: nat): seq<Action> {
    Aged(e, age) + seq(7, i => ControlStep)
  }

  lemma SixWrites(cmd: Command, millis: nat)
    ensures |TickWrites(cmd, millis)| == 6
  {
  }

  lemma CarriesOut(e: Event, age: nat)
    requires e.Text? && Request(e).Some?
    ensures var (u, s) := (Request(e).value, Run(Start(), CarriedOut(e, age)));
      s.control == Wait && s.pins == if age % WRAP > WATCHDOG_TIMEOUT_MS then OFF else Fresh(u.v, u.w)
  {
    var s := Run(Start(), Aged(e, age));
    WatchdogWraps(e, age);
    PendingAfter(e, age);
    StartsWell();
    RunKeeps(Start(), Aged(e, age));
    hide Run, Request, Fresh, Aged;
    WritesOut(s, 6);
    RunConcat(Start(), Aged(e, age), seq(7, i => ControlStep));
  }

  /** The sides that a wheel's motor is driven from. */
  lemma FreshPins(v: real, w: real)
    ensures var (left, right) := Wheels(v, w); var p := Fresh(v, w);
      && (p.in1 <==> left > 0.0) && (p.in2 <==> left < 0.0) && p.left == Duty(left)
      && p.rpwm == (if right > 0.0 then Duty(right) else 0) && p.lpwm == (if right < 0.0 then Duty(right) else 0)
      && (p.led <==> !(v == 0.0 && w == 0.0))
  {
    hide Duty, Wheels;
  }

  /**
   Main result on messages: from the text of a message to the pins. A fresh message with a direction and a positive
   speed drives each motor from the side and with the duty that the direction asks for; any other one, and an old one,
   switches both off.
   */
  lemma DirectionsDrive(dir: string, rest: string, speed: real, age: nat)
    requires dir != "" && ',' !in dir && speed > 0.0
    ensures var p := Run(Start(), CarriedOut(Text(dir + "," + rest, speed), age)).pins;
      var duties := (Duty(speed), Duty(speed * 0.95));
      if age % 0x1_0000_0000 > 500 || dir !in ["F", "T", "E", "D"]
      then p.in1 == p.in2 == false && p.left == p.rpwm == p.lpwm == 0
      else
        && p.led && p.left == duties.0
        && (p.in1 <==> dir in ["F", "D"]) && (p.in2 <==> dir in ["T", "E"])
        && p.rpwm == (if dir in ["F", "E"] then duties.1 else 0)
        && p.lpwm == (if dir in ["T", "D"] then duties.1 else 0)
  {
    var e := Text(dir + "," + rest, speed);
    MessageAsks(dir, rest, speed);
    CarriesOut(e, age);
    var u := Request(e).value;
    FreshPins(u.v, u.w);
    assert Duty(-speed) == Duty(speed) && Duty(-speed * 0.95) == Duty(speed * 0.95) && Duty(0.0) == 0;
    hide Duty, Request, Run, CarriedOut, Fresh;
    assert Wheels(0.0, 0.0) == (0.0, 0.0);
  }

  /** The message `P` switches everything off. */
  lemma StopMessage(speed: real, age: nat)
    ensures Run(Start(), CarriedOut(Text("P", speed), age)).pins == OFF
  {
    MessageAsks("P", "", speed);
    CarriesOut(Text("P", speed), age);
    assert Wheels(0.0, 0.0) == (0.0, 0.0);
  }

  lemma StepMonotone(s: System, a: Action)
    requires Inv(s)
    ensures s.time <= Step(s, a).time && s.accepted <= Step(s, a).accepted && s.ticks <= Step(s, a).ticks
  {
    hide Duty, TickWrites, Intended, Request, Driven;
  }

  lemma {:induction false} RunMonotone(s: System, actions: seq<Action>)
    requires Inv(s)
    ensures s.time <= Run(s, actions).time && s.accepted <= Run(s, actions).accepted && s.ticks <= Run(s, actions).ticks
    decreases |actions|
  {
    if actions != [] {
      hide Step;
      StepKeeps(s, actions[0]);
      StepMonotone(s, actions[0]);
      RunMonotone(Step(s, actions[0]), actions[1..]);
    }
  }

  predicate AllOff(ws: seq<Write>) {
    forall w :: w in ws ==> Apply(OFF, w) == OFF
  }

  /**
   No command has been accepted since `since`, which is over 500 ms ago; `first` ticks were over when the run began,
   at the beginning of a tick.
   */
  predicate Quiet(s: System, since: nat, first: nat) {
    && s.accepted == since && since + WATCHDOG_TIMEOUT_MS < s.time < since + WRAP && first <= s.ticks
    && (s.control.Give? || s.control.Decide? || s.control.Writing? ==> s.localAccepted == since)
    && (s.control.Writing? ==> s.goal == OFF && AllOff(s.control.pending))
    && (s.ticks > first ==> s.pins == OFF)
  }

  lemma QuietStep(s: System, a: Action, since: nat, first: nat)
    requires Inv(s) && Quiet(s, since, first)
    requires Step(s, a).accepted == since && Step(s, a).time < since + WRAP
    ensures Quiet(Step(s, a), since, first)
  {
    StaleExact(s);
    hide Duty, DriveWrites, Request, Locked, Snapshot, Stored, Clocked;
    if a.ControlStep? && s.control.Decide? {
      assert AllOff(StopWrites());
    } else if a.ControlStep? && s.control.Writing? && s.control.pending != [] {
      assert s.control.pending[0] in s.control.pending;
      assert AllOff(s.control.pending[1..]);
    } else if a.ControlStep? && s.control.Writing? {
      assert s.pins == s.goal;
    }
  }

  /**
   Main result on the watchdog: once the last accepted command is over 500 ms old (and less than 2^32 ms), the first
   tick to be over has set every motor output to zero, and they stay at zero, at every moment, for as long as no
   command is accepted. Nothing else in the run matters: not disconnections, not updates that lose the mutex.
   */
  lemma {:induction false} QuietStops(s: System, actions: seq<Action>, since: nat, first: nat)
    requires Inv(s) && Quiet(s, since, first)
    requires Run(s, actions).accepted == since && Run(s, actions).time < since + WRAP
    ensures Run(s, actions).ticks > first ==> Run(s, actions).pins == OFF
    decreases |actions|
  {
    hide Step;
    if actions != [] {
      var t := Step(s, actions[0]);
      StepKeeps(s, actions[0]);
      RunMonotone(t, actions[1..]);
      StepMonotone(s, actions[0]);
      QuietStep(s, actions[0], since, first);
      QuietStops(t, actions[1..], since, first);
    }
  }

  /** The same from the start of any tick. */
  lemma Watchdog(s: System, actions: seq<Action>)
    requires Inv(s) && s.control.Wait? && s.accepted + WATCHDOG_TIMEOUT_MS < s.time
    requires Run(s, actions).accepted == s.accepted && Run(s, actions).time < s.accepted + WRAP
    ensures Run(s, actions).ticks > s.ticks ==> Run(s, actions).pins == OFF
  {
    RunMonotone(s, actions);
    QuietStops(s, actions, s.accepted, s.ticks);
  }

  /** A message that asks for something. */
  predicate Message(a: Action) {
    a.Arrive? && a.event.Text? && Request(a.event).Some?
  }

  /** The web task is not on its way to store a message. */
  predicate NoMessage(w: Web) {
    w.Listen? || (!w.u.stamps && !w.StoreLast?)
  }

  /** Only messages are accepted: disconnections store a halt, and leave the age of the command as it is. */
  lemma {:induction false} OnlyMessagesAccepted(s: System, actions: seq<Action>)
    requires NoMessage(s.web) && forall i :: 0 <= i < |actions| ==> !Message(actions[i])
    ensures Run(s, actions).accepted == s.accepted
    decreases |actions|
  {
    hide Request;
    if actions != [] {
      if actions[0].Arrive? {
        RequestStamps(actions[0].event);
      }
      assert NoMessage(Step(s, actions[0]).web) && Step(s, actions[0]).accepted == s.accepted;
      OnlyMessagesAccepted(Step(s, actions[0]), actions[1..]);
    }
  }

  /** The watchdog in terms of the messages: without one, the motors are off from the end of the next tick on. */
  lemma SilenceStops(s: System, actions: seq<Action>)
    requires Inv(s) && s.control.Wait? && NoMessage(s.web) && s.accepted + WATCHDOG_TIMEOUT_MS < s.time
    requires forall i :: 0 <= i < |actions| ==> !Message(actions[i])
    requires Run(s, actions).time < s.accepted + WRAP
    ensures Run(s, actions).ticks > s.ticks ==> Run(s, actions).pins == OFF
  {
    OnlyMessagesAccepted(s, actions);
    Watchdog(s, actions);
  }

  /** An event that asks for the speeds of this command. */
  predicate Asks(a: Action, v: real, w: real) {
    a.Arrive? && Request(a.event).Some? && Request(a.event).value.v == v && Request(a.event).value.w == w
  }

  ghost predicate Asked(actions: seq<Action>, v: real, w: real) {
    exists i :: 0 <= i < |actions| && Asks(actions[i], v, w)
  }

  lemma AskedLater(actions: seq<Action>, a: Action, v: real, w: real)
    ensures Asked(actions + [a], v, w) <==> Asked(actions, v, w) || Asks(a, v, w)
  {
    hide Asks;
    var all := actions + [a];
    if Asked(actions, v, w) {
      var i :| 0 <= i < |actions| && Asks(actions[i], v, w);
      assert Asks(all[i], v, w);
    }
    assert all[|actions|] == a;
  }

  /** Every command there has been, and the update on its way, was asked for by an event; the first one is a halt. */
  ghost predicate FromEvents(s: System, actions: seq<Action>) {
    && (!s.web.Listen? ==> Asked(actions, s.web.u.v, s.web.u.w))
    && forall c :: c in s.commands ==> (c.v == 0.0 && c.w == 0.0) || Asked(actions, c.v, c.w)
  }

  lemma StepFromEvents(s: System, actions: seq<Action>, a: Action)
    requires Inv(s) && FromEvents(s, actions)
    ensures FromEvents(Step(s, a), actions + [a])
  {
    hide Asked, Request, TickWrites, Intended, Driven, Snapshot, Clocked;
    var t := Step(s, a);
    if !t.web.Listen? {
      AskedLater(actions, a, t.web.u.v, t.web.u.w);
    }
    forall c | c in t.commands
      ensures (c.v == 0.0 && c.w == 0.0) || Asked(actions + [a], c.v, c.w)
    {
      AskedLater(actions, a, c.v, c.w);
    }
  }

  /** Main result on commands, over all runs: the control task acts on what some event has asked for, or on a halt. */
  lemma {:induction false} CommandsAsked(actions: seq<Action>)
    ensures var s := Run(Start(), actions);
      && Inv(s) && FromEvents(s, actions)
      && (s.control.Decide? || s.control.Writing? ==>
            (s.local.v == 0.0 && s.local.w == 0.0) || Asked(actions, s.local.v, s.local.w))
  {
    hide Step, Asked;
    StartsWell();
    RunKeeps(Start(), actions);
    if actions != [] {
      var before, a := actions[..|actions| - 1], actions[|actions| - 1];
      CommandsAsked(before);
      StepFromEvents(Run(Start(), before), before, a);
      RunConcat(Start(), before, [a]);
      assert [a][1..] == [] && actions == before + [a];
    }
  }

  /** A halt, whether stamped or not, turns everything off at the next decision. */
  lemma HaltStops(millis: nat, last: nat)
    ensures Intended(Command(0.0, 0.0, last), millis) == OFF
  {
    assert Wheels(0.0, 0.0) == (0.0, 0.0);
  }
}
