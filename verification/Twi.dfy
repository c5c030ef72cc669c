/**
 The interrupt-driven I2C master of I2Cdev.cpp (NBWire), on values.

 `Master` holds the driver's static variables, `System` adds the phase of the TWI hardware.
 A transaction is started by `WriteTo` or `ReadFrom` and then driven by a trace of interrupts;
 `Legal` says which traces the hardware can produce from the commands the driver gave it.
 */
module Twi {
  import opened Bytes

  const TWI_BUFFER_LENGTH: nat := 32
  const NO_ERROR: byte := 0xFF
  const MT_SLA_NACK: byte := 0x20
  const MT_DATA_NACK: byte := 0x30
  const MT_ARB_LOST: byte := 0x38
  const BUS_ERROR: byte := 0x00

  datatype BusState = Ready | Mrx | Mtx

  /** The values of TW_STATUS that reach the handler; data bytes arrive in TWDR. */
  datatype Status =
    | Start | RepStart
    | MtSlaAck | MtSlaNack | MtDataAck | MtDataNack
    | ArbLost
    | MrSlaAck | MrSlaNack | MrDataAck(data: byte) | MrDataNack(data: byte)
    | NoInfo | BusError

  /** The last command written to TWCR. */
  datatype Control = Idle | SendStart | Reply(ack: bool) | Stop | Release

  /** `fNextInterruptFunction`. */
  datatype Continuation = Nothing | Write00 | Write01 | Read00 | Read01

  /** `twi_Write_Vars`; `data` is the tx buffer for a write and the rx buffer for a read. */
  datatype Vars = Vars(address: byte, length: byte)

  /**
   The driver. `sent` logs every byte put in TWDR, `acks` every reply, `calls` every call of the user's callback;
   `allocs` and `frees` count the heap operations on `ptwv`; `fault` records an access outside a buffer
   or through a null `ptwv`.
   */
  datatype Master = Master(
    state: BusState, slarw: byte, error: byte,
    buffer: seq<byte>, index: byte, length: byte,
    tx: seq<byte>, rx: seq<byte>,
    vars: Option<Vars>, next: Continuation,
    done: bool, result: byte, transmitting: bool, callback: bool,
    twdr: byte, control: Control,
    sent: seq<byte>, acks: seq<bool>, calls: seq<byte>, allocs: nat, frees: nat, fault: bool)

  predicate WellSized(m: Master) {
    |m.buffer| == |m.tx| == |m.rx| == TWI_BUFFER_LENGTH
  }

  // ---------------------------------------------------------------- the driver's functions

  function Finish(m: Master, r: byte): Master {
    m.(vars := None,
       frees := if m.vars.Some? then m.frees + 1 else m.frees,
       done := true, result := r, next := Nothing)
  }

  function Notify(m: Master): Master {
    if m.callback then m.(calls := m.calls + [m.result]) else m
  }

  function TwiWrite01(m: Master): (r: Master)
    ensures r.buffer == m.buffer && r.tx == m.tx && r.rx == m.rx
  {
    if m.state == Mtx then m
    else
      var idle := m.(transmitting := false);
      if m.error == NO_ERROR then Notify(Finish(idle, 0))
      else if m.error == MT_SLA_NACK then Notify(Finish(idle, 2))
      else if m.error == MT_DATA_NACK then Notify(Finish(idle, 3))
      else Notify(Finish(idle, 4))
  }

  function MarkBusy(m: Master, busy: BusState): Master {
    m.(done := false, state := busy, error := NO_ERROR)
  }

  function InitBuffer(m: Master, n: byte): Master {
    m.(index := 0, length := n)
  }

  function Address(m: Master, b: byte, next: Continuation): Master {
    m.(slarw := b, control := SendStart, next := next)
  }

  /** A write is under way: the data is copied and a start condition requested. */
  function OpenWrite(m: Master, v: Vars): (r: Master)
    requires WellSized(m) && v.length <= TWI_BUFFER_LENGTH
    ensures WellSized(r)
  {
    Address(InitBuffer(MarkBusy(m, Mtx), v.length).(buffer := m.tx[..v.length] + m.buffer[v.length..]),
            ToByte(2 * v.address), Write01)
  }

  function TwiWrite00(m: Master): (r: Master)
    requires WellSized(m) && m.vars.Some?
    ensures WellSized(r) && r.tx == m.tx && r.rx == m.rx
  {
    if m.state != Ready then m
    else
      var v := m.vars.value;
      if TWI_BUFFER_LENGTH < v.length then Finish(m, 1)
      else TwiWrite01(OpenWrite(m, v))
  }

  function Request(m: Master, address: byte, length: byte, next: Continuation): Master {
    m.(vars := Some(Vars(address, length)), allocs := m.allocs + 1, next := next)
  }

  /** `twi_writeTo`: send the first `length` bytes of the tx buffer to `address`. */
  function WriteTo(m: Master, address: byte, length: byte): (r: Master)
    requires WellSized(m)
    ensures WellSized(r)
  {
    TwiWrite00(Request(m, address, length, Write00))
  }

  function TwiRead01(m: Master): (r: Master)
    requires WellSized(m)
    ensures WellSized(r) && r.tx == m.tx
  {
    if m.state == Mrx then m
    else if m.vars.None? then m.(fault := true)
    else
      var n := if m.index < m.vars.value.length then m.index else m.vars.value.length;
      if TWI_BUFFER_LENGTH < n then m.(fault := true)
      else Notify(Finish(m.(rx := m.buffer[..n] + m.rx[n..]), n))
  }

  /** A read is under way: one byte less than asked will be acknowledged. */
  function OpenRead(m: Master, v: Vars): Master {
    Address(InitBuffer(MarkBusy(m, Mrx), ToByte(v.length - 1)), ToByte(2 * v.address) + 1, Read01)
  }

  function TwiRead00(m: Master): (r: Master)
    requires WellSized(m) && m.vars.Some?
    ensures WellSized(r) && r.tx == m.tx
  {
    if m.state != Ready then m
    else
      var v := m.vars.value;
      if TWI_BUFFER_LENGTH < v.length then Finish(m, 0).(fault := true)  // goes on through the freed ptwv
      else TwiRead01(OpenRead(m, v))
  }

  /** `twi_readFrom`: read `length` bytes from `address` into the rx buffer. */
  function ReadFrom(m: Master, address: byte, length: byte): (r: Master)
    requires WellSized(m)
    ensures WellSized(r)
  {
    TwiRead00(Request(m, address, length, Read00))
  }

  function PutByte(m: Master, b: byte): Master {
    m.(twdr := b, sent := m.sent + [b])
  }

  function ReplyWith(m: Master, ack: bool): Master {
    m.(control := Reply(ack), acks := m.acks + [ack])
  }

  function StopBus(m: Master): Master {
    m.(control := Stop, state := Ready)
  }

  function StoreByte(m: Master, b: byte): Master {
    if m.index < |m.buffer| then m.(twdr := b, buffer := m.buffer[m.index as int := b], index := ToByte(m.index + 1))
    else m.(fault := true)
  }

  function AskForMore(m: Master): Master {
    ReplyWith(m, m.index < m.length)
  }

  function SendNext(m: Master): Master {
    if m.index < m.length then
      if m.index < |m.buffer| then
        ReplyWith(PutByte(m, m.buffer[m.index]).(index := ToByte(m.index + 1)), true)
      else m.(fault := true)
    else StopBus(m)
  }

  function Fail(m: Master, error: byte): Master {
    StopBus(m.(error := error))
  }

  /** The `switch` of SIGNAL(TWI_vect). */
  function Handle(m: Master, st: Status): (r: Master)
    ensures WellSized(m) ==> WellSized(r)
  {
    match st
    case Start | RepStart => ReplyWith(PutByte(m, m.slarw), true)
    case MtSlaAck | MtDataAck => SendNext(m)
    case MtSlaNack => Fail(m, MT_SLA_NACK)
    case MtDataNack => Fail(m, MT_DATA_NACK)
    case ArbLost => m.(error := MT_ARB_LOST, control := Release, state := Ready)
    case MrDataAck(b) => AskForMore(StoreByte(m, b))
    case MrSlaAck => AskForMore(m)
    case MrDataNack(b) => StopBus(StoreByte(m, b))
    case MrSlaNack => StopBus(m)
    case NoInfo => m
    case BusError => Fail(m, BUS_ERROR)
  }

  function Continue(m: Master): (r: Master)
    requires WellSized(m)
    ensures WellSized(r) && (m.fault ==> r.fault)
  {
    match m.next
    case Nothing => m
    case Write00 => if m.vars.Some? then TwiWrite00(m) else m.(fault := true)
    case Write01 => TwiWrite01(m)
    case Read00 => if m.vars.Some? then TwiRead00(m) else m.(fault := true)
    case Read01 => TwiRead01(m)
  }

  /** SIGNAL(TWI_vect): handle the status, then run the continuation. */
  function Signal(m: Master, st: Status): (r: Master)
    requires WellSized(m)
    ensures WellSized(r)
  {
    Continue(Handle(m, st))
  }

  // ---------------------------------------------------------------- the hardware

  /** What the TWI hardware is doing; it answers the driver's last command with one of a few statuses. */
  datatype Phase = Quiet | Starting | Addressing(read: bool) | Sending | Receiving(ack: bool)

  datatype System = System(m: Master, phase: Phase)

  predicate Allowed(phase: Phase, st: Status) {
    && phase != Quiet
    && match st
       case NoInfo | BusError | ArbLost => true
       case Start | RepStart => phase == Starting
       case MtSlaAck | MtSlaNack => phase == Addressing(false)
       case MrSlaAck | MrSlaNack => phase == Addressing(true)
       case MtDataAck | MtDataNack => phase == Sending
       case MrDataAck(_) => phase == Receiving(true)
       case MrDataNack(_) => phase == Receiving(false)
  }

  function NextPhase(phase: Phase, st: Status, control: Control, twdr: byte): Phase {
    if st == NoInfo then phase
    else
      match control
      case SendStart => Starting
      case Stop | Release | Idle => Quiet
      case Reply(ack) =>
        if st.Start? || st.RepStart? then Addressing(twdr % 2 == 1)
        else if st.MtSlaAck? || st.MtDataAck? then Sending
        else Receiving(ack)
  }

  function Step(s: System, st: Status): (r: System)
    requires WellSized(s.m)
    ensures WellSized(r.m)
  {
    var m := Signal(s.m, st);
    System(m, NextPhase(s.phase, st, m.control, m.twdr))
  }

  /** The system after the interrupts of `tr`, oldest first. */
  function Run(s: System, tr: seq<Status>): (r: System)
    requires WellSized(s.m)
    ensures WellSized(r.m)
  {
    if tr == [] then s
    else
      var before := Run(s, tr[..|tr| - 1]);
      Step(before, tr[|tr| - 1])
  }

  lemma RunNext(s: System, tr: seq<Status>, i: nat)
    requires WellSized(s.m) && i < |tr|
    ensures Run(s, tr[..i + 1]).m == Signal(Run(s, tr[..i]).m, tr[i])
  {
    assert tr[..i + 1][..i] == tr[..i];
  }

  /** `tr` is a sequence of interrupts the hardware can raise from `s` on. */
  predicate Legal(s: System, tr: seq<Status>)
    requires WellSized(s.m)
  {
    tr == [] ||
    (Legal(s, tr[..|tr| - 1]) && Allowed(Run(s, tr[..|tr| - 1]).phase, tr[|tr| - 1]))
  }

  // ---------------------------------------------------------------- what a trace says by itself

  /** Number of acknowledgements (of the address or of a data byte) in a write. */
  function Acks(tr: seq<Status>): nat {
    if tr == [] then 0
    else Acks(tr[..|tr| - 1]) + (if tr[|tr| - 1] == MtSlaAck || tr[|tr| - 1] == MtDataAck then 1 else 0)
  }

  /** The data bytes the slave sent, in order. */
  function Received(tr: seq<Status>): seq<byte> {
    if tr == [] then []
    else
      var st := tr[|tr| - 1];
      Received(tr[..|tr| - 1]) + (if st.MrDataAck? || st.MrDataNack? then [st.data] else [])
  }

  function Informative(tr: seq<Status>): nat {
    if tr == [] then 0
    else Informative(tr[..|tr| - 1]) + (if tr[|tr| - 1] == NoInfo then 0 else 1)
  }

  predicate Started(tr: seq<Status>) {
    Start in tr || RepStart in tr
  }

  predicate Lost(tr: seq<Status>) {
    ArbLost in tr || BusError in tr
  }

  predicate DataNacked(tr: seq<Status>) {
    exists i :: 0 <= i < |tr| && tr[i].MrDataNack?
  }

  /** How often the driver had to answer for the next byte: after the address and after each byte but the last. */
  function Requests(tr: seq<Status>): nat {
    if tr == [] then 0
    else Requests(tr[..|tr| - 1]) + (if tr[|tr| - 1] == MrSlaAck || tr[|tr| - 1].MrDataAck? then 1 else 0)
  }

  predicate ReadEnded(tr: seq<Status>) {
    Lost(tr) || MrSlaNack in tr || DataNacked(tr)
  }

  /** How one more interrupt changes what the trace says. */
  lemma Snoc(tr: seq<Status>, st: Status)
    ensures var tr' := tr + [st];
      && Acks(tr') == Acks(tr) + (if st == MtSlaAck || st == MtDataAck then 1 else 0)
      && Requests(tr') == Requests(tr) + (if st == MrSlaAck || st.MrDataAck? then 1 else 0)
      && Received(tr') == Received(tr) + (if st.MrDataAck? || st.MrDataNack? then [st.data] else [])
      && Informative(tr') == Informative(tr) + (if st == NoInfo then 0 else 1)
      && (Started(tr') <==> Started(tr) || st == Start || st == RepStart)
      && (Lost(tr') <==> Lost(tr) || st == ArbLost || st == BusError)
      && (DataNacked(tr') <==> DataNacked(tr) || st.MrDataNack?)
      && (forall x :: x in tr' <==> x in tr || x == st)
  {
    var tr' := tr + [st];
    assert tr'[..|tr|] == tr && tr'[|tr|] == st;
    if i :| 0 <= i < |tr| && tr[i].MrDataNack? {
      assert tr'[i].MrDataNack?;
    }
    if st.MrDataNack? {
      assert tr'[|tr|].MrDataNack?;
    }
  }

  // ---------------------------------------------------------------- writes

  predicate BusFree(m: Master) {
    WellSized(m) && m.state == Ready && m.vars == None && m.next == Nothing && !m.fault && m.allocs == m.frees
  }

  function Writing(m: Master, address: byte, n: byte): (r: System)
    requires WellSized(m)
    ensures WellSized(r.m)
  {
    System(WriteTo(m, address, n), Starting)
  }

  /** An address that nobody acknowledges. */
  lemma RefusalIsLegal(m: Master, address: byte)
    requires BusFree(m)
    ensures Legal(Writing(m, address, 0), [Start, MtSlaNack]) && WriteEnded([Start, MtSlaNack], 0)
  {
    var s := Writing(m, address, 0);
    assert [Start, MtSlaNack][..1] == [Start] && [Start][..0] == [];
    assert Run(s, []) == s && Legal(s, []);
    assert Run(s, [Start]) == Step(s, Start) && Legal(s, [Start]);
    assert Step(s, Start).phase == Addressing(false);
  }

  /** The address byte with the write bit clear, then the data. */
  function Frame(m: Master, address: byte, n: byte): seq<byte>
    requires WellSized(m) && n <= TWI_BUFFER_LENGTH
  {
    [ToByte(2 * address)] + m.tx[..n]
  }

  function Min(a: int, b: int): int { if a < b then a else b }

  predicate WriteEnded(tr: seq<Status>, n: byte) {
    MtSlaNack in tr || MtDataNack in tr || Lost(tr) || Acks(tr) == n + 1
  }

  /** How the transaction ended according to the trace alone; None while it is still open. */
  function WriteVerdict(tr: seq<Status>, n: byte): Option<byte> {
    if MtSlaNack in tr then Some(2)
    else if MtDataNack in tr then Some(3)
    else if Lost(tr) then Some(4)
    else if Acks(tr) > n then Some(0)
    else None
  }

  /** The driver and the hardware after `acks` acknowledgements, ended by `verdict` if there is one. */
  ghost predicate WriteAt(m: Master, address: byte, n: byte, started: bool, acks: nat, verdict: Option<byte>, r: System)
    requires WellSized(m) && n <= TWI_BUFFER_LENGTH
  {
    && WellSized(r.m) && !r.m.fault
    && r.m.tx == m.tx && r.m.rx == m.rx && r.m.callback == m.callback && r.m.allocs == m.allocs + 1
    && (acks > 0 ==> started)
    && r.m.sent == m.sent + Frame(m, address, n)[..if started then 1 + Min(acks, n) else 0]
    && match verdict
       case None =>
         && acks <= n
         && r.m.transmitting == m.transmitting
         && !r.m.done && r.m.result == m.result && r.m.state == Mtx && r.m.error == NO_ERROR && r.m.next == Write01
         && r.m.vars == Some(Vars(address, n)) && r.m.frees == m.frees && r.m.calls == m.calls
         && r.m.slarw == ToByte(2 * address) && r.m.length == n && r.m.index == acks && r.m.buffer[..n] == m.tx[..n]
         && r.phase == (if !started then Starting else if acks == 0 then Addressing(false) else Sending)
       case Some(code) =>
         && acks <= n + 1 && !r.m.transmitting
         && r.m.done && r.m.state == Ready && r.m.next == Nothing && r.phase == Quiet
         && r.m.vars == None && r.m.frees == m.frees + 1
         && r.m.result == code && (code == 0 <==> acks == n + 1)
         && r.m.calls == (if m.callback then m.calls + [code] else m.calls)
  }

  lemma WriteStarts(m: Master, address: byte, n: byte)
    requires BusFree(m) && n <= TWI_BUFFER_LENGTH
    ensures WriteAt(m, address, n, false, 0, None, Writing(m, address, n))
  {
    var v := Writing(m, address, n).m;
    assert v.buffer[..n] == m.tx[..n];
  }

  lemma WriteStepStart(m: Master, address: byte, n: byte, started: bool, r: System, st: Status)
    requires WellSized(m) && n <= TWI_BUFFER_LENGTH && WriteAt(m, address, n, started, 0, None, r)
    requires r.phase == Starting && (st == Start || st == RepStart)
    ensures WriteAt(m, address, n, true, 0, None, Step(r, st))
  {
    assert Frame(m, address, n)[..1] == [ToByte(2 * address)];
    assert m.sent + [] == m.sent;
  }

  lemma WriteStepNext(m: Master, address: byte, n: byte, acks: nat, r: System, st: Status)
    requires WellSized(m) && n <= TWI_BUFFER_LENGTH && acks < n && WriteAt(m, address, n, true, acks, None, r)
    requires Allowed(r.phase, st) && (st == MtSlaAck || st == MtDataAck)
    ensures WriteAt(m, address, n, true, acks + 1, None, Step(r, st))
  {
    var f := Frame(m, address, n);
    assert r.m.buffer[acks] == r.m.buffer[..n][acks] == m.tx[..n][acks];
    assert f[..1 + acks + 1] == f[..1 + acks] + [r.m.buffer[acks]];
  }

  lemma WriteStepLast(m: Master, address: byte, n: byte, r: System, st: Status)
    requires WellSized(m) && n <= TWI_BUFFER_LENGTH && WriteAt(m, address, n, true, n as nat, None, r)
    requires Allowed(r.phase, st) && (st == MtSlaAck || st == MtDataAck)
    ensures WriteAt(m, address, n, true, n + 1, Some(0), Step(r, st))
  {
  }

  lemma WriteStepFail(m: Master, address: byte, n: byte, started: bool, acks: nat, r: System, st: Status)
    requires WellSized(m) && n <= TWI_BUFFER_LENGTH && WriteAt(m, address, n, started, acks, None, r)
    requires Allowed(r.phase, st) && (st == MtSlaNack || st == MtDataNack || st == ArbLost || st == BusError)
    ensures WriteAt(m, address, n, started, acks,
                    Some(if st == MtSlaNack then 2 else if st == MtDataNack then 3 else 4), Step(r, st))
  {
  }

  /** The invariant of a write: the state is the one the trace's own summary describes. */
  ghost predicate WriteInv(m: Master, address: byte, n: byte, tr: seq<Status>, r: System)
    requires WellSized(m) && n <= TWI_BUFFER_LENGTH
  {
    && WriteAt(m, address, n, Started(tr), Acks(tr), WriteVerdict(tr, n), r)
    && (MtSlaNack in tr ==> Acks(tr) == 0 && MtDataNack !in tr && !Lost(tr))
    && (MtDataNack in tr ==> 1 <= Acks(tr) <= n && !Lost(tr))
  }

  /** What the phase of an open write says about the next interrupt. */
  lemma WriteEnabled(m: Master, address: byte, n: byte, started: bool, acks: nat, verdict: Option<byte>, r: System,
                     st: Status)
    requires WellSized(m) && n <= TWI_BUFFER_LENGTH
    requires WriteAt(m, address, n, started, acks, verdict, r) && Allowed(r.phase, st)
    ensures verdict == None
    ensures match st
      case Start | RepStart => !started && acks == 0
      case MtSlaAck | MtSlaNack => started && acks == 0
      case MtDataAck | MtDataNack => started && 1 <= acks <= n
      case ArbLost | BusError | NoInfo => true
      case _ => false
  {
  }

  /** What one more interrupt decides; `acks` counts it if it is an acknowledgement. */
  function VerdictAfter(st: Status, acks: nat, n: byte): Option<byte> {
    match st
    case MtSlaNack => Some(2)
    case MtDataNack => Some(3)
    case ArbLost | BusError => Some(4)
    case _ => if acks > n then Some(0) else None
  }

  /** The state after one more interrupt, in terms of the old and new summaries. */
  lemma WriteAtStep(m: Master, address: byte, n: byte, started: bool, acks: nat, r: System, st: Status)
    requires WellSized(m) && n <= TWI_BUFFER_LENGTH
    requires WriteAt(m, address, n, started, acks, None, r) && Allowed(r.phase, st)
    ensures
      var acks' := if st == MtSlaAck || st == MtDataAck then acks + 1 else acks;
      WriteAt(m, address, n, started || st == Start || st == RepStart, acks', VerdictAfter(st, acks', n), Step(r, st))
  {
    WriteEnabled(m, address, n, started, acks, None, r, st);
    if st == Start || st == RepStart {
      WriteStepStart(m, address, n, started, r, st);
    } else if st == MtSlaAck || st == MtDataAck {
      if acks < n {
        WriteStepNext(m, address, n, acks, r, st);
      } else {
        WriteStepLast(m, address, n, r, st);
      }
    } else if st != NoInfo {
      WriteStepFail(m, address, n, started, acks, r, st);
    }
  }

  lemma {:induction false} WriteStep(m: Master, address: byte, n: byte, tr: seq<Status>, r: System, st: Status)
    requires WellSized(m) && n <= TWI_BUFFER_LENGTH
    requires WriteInv(m, address, n, tr, r) && Allowed(r.phase, st)
    ensures WriteInv(m, address, n, tr + [st], Step(r, st))
  {
    Snoc(tr, st);
    WriteEnabled(m, address, n, Started(tr), Acks(tr), WriteVerdict(tr, n), r, st);
    WriteAtStep(m, address, n, Started(tr), Acks(tr), r, st);
  }

  lemma {:induction false} LegalLast(s: System, tr: seq<Status>)
    requires WellSized(s.m) && Legal(s, tr) && tr != []
    ensures Legal(s, tr[..|tr| - 1]) && Allowed(Run(s, tr[..|tr| - 1]).phase, tr[|tr| - 1])
    ensures tr == tr[..|tr| - 1] + [tr[|tr| - 1]]
  {
    hide Run, Allowed;
  }

  lemma {:induction false} WriteInvAlong(m: Master, address: byte, n: byte, s: System, tr: seq<Status>)
    requires WellSized(m) && n <= TWI_BUFFER_LENGTH && WriteInv(m, address, n, [], s) && Legal(s, tr)
    ensures WriteInv(m, address, n, tr, Run(s, tr))
  {
    if tr != [] {
      LegalLast(s, tr);
      var before, st := tr[..|tr| - 1], tr[|tr| - 1];
      assert Run(s, tr) == Step(Run(s, before), st);
      hide *;
      WriteInvAlong(m, address, n, s, before);
      WriteStep(m, address, n, before, Run(s, before), st);
    }
  }

  lemma {:induction false} WriteRun(m: Master, address: byte, n: byte, tr: seq<Status>)
    requires BusFree(m) && n <= TWI_BUFFER_LENGTH && Legal(Writing(m, address, n), tr)
    ensures WriteInv(m, address, n, tr, Run(Writing(m, address, n), tr))
  {
    WriteStarts(m, address, n);
    WriteInvAlong(m, address, n, Writing(m, address, n), tr);
  }

  /**
   What has been asked of the hardware last: the start condition, then an acknowledgement of every interrupt, and in the
   end the stop condition, or the release of the bus if it was lost to another master. TWDR holds the byte sent last.
   */
  predicate WriteCommand(tr: seq<Status>, m: Master) {
    && m.control == (if m.done then Ending(tr) else if Started(tr) then Reply(true) else SendStart)
    && (Started(tr) ==> m.sent != [] && m.twdr == m.sent[|m.sent| - 1])
  }

  /** How a transaction that is over has left the bus. */
  function Ending(tr: seq<Status>): Control {
    if ArbLost in tr then Release else Stop
  }

  /** What one more interrupt makes of the last command. */
  predicate Commanded(started: bool, st: Status, m: Master) {
    && m.control ==
       (if m.done then (if st == ArbLost then Release else Stop) else if started then Reply(true) else SendStart)
    && (started ==> m.sent != [] && m.twdr == m.sent[|m.sent| - 1])
  }

  lemma CommandOfAck(m: Master, address: byte, n: byte, acks: nat, r: System, st: Status)
    requires WellSized(m) && n <= TWI_BUFFER_LENGTH && WriteAt(m, address, n, true, acks, None, r)
    requires (st == MtSlaAck || st == MtDataAck) && Commanded(true, NoInfo, r.m)
    ensures Commanded(true, st, Step(r, st).m)
  {
    hide Frame, NextPhase;
  }

  lemma CommandOfOther(m: Master, address: byte, n: byte, started: bool, acks: nat, r: System, st: Status)
    requires WellSized(m) && n <= TWI_BUFFER_LENGTH && WriteAt(m, address, n, started, acks, None, r)
    requires st == MtSlaNack || st == MtDataNack || st == ArbLost || st == BusError || st == NoInfo
    requires Commanded(started, NoInfo, r.m)
    ensures Commanded(started, st, Step(r, st).m)
  {
    hide Frame, NextPhase;
  }

  lemma CommandOfStart(m: Master, address: byte, n: byte, r: System, st: Status)
    requires WellSized(m) && n <= TWI_BUFFER_LENGTH && WriteAt(m, address, n, false, 0, None, r)
    requires st == Start || st == RepStart
    ensures Commanded(true, st, Step(r, st).m)
  {
    hide Frame, NextPhase;
  }

  lemma CommandAfter(m: Master, address: byte, n: byte, started: bool, acks: nat, r: System, st: Status)
    requires WellSized(m) && n <= TWI_BUFFER_LENGTH && WriteAt(m, address, n, started, acks, None, r)
    requires Allowed(r.phase, st) && Commanded(started, NoInfo, r.m)
    ensures Commanded(started || st == Start || st == RepStart, st, Step(r, st).m)
  {
    WriteEnabled(m, address, n, started, acks, None, r, st);
    hide Step, WriteAt, Commanded;
    if st == Start || st == RepStart {
      CommandOfStart(m, address, n, r, st);
    } else if st == MtSlaAck || st == MtDataAck {
      CommandOfAck(m, address, n, acks, r, st);
    } else {
      CommandOfOther(m, address, n, started, acks, r, st);
    }
  }

  lemma WriteCommandStep(m: Master, address: byte, n: byte, tr: seq<Status>, r: System, st: Status)
    requires WellSized(m) && n <= TWI_BUFFER_LENGTH && WriteInv(m, address, n, tr, r) && Allowed(r.phase, st)
    requires WriteCommand(tr, r.m)
    ensures WriteCommand(tr + [st], Step(r, st).m)
  {
    Snoc(tr, st);
    WriteEnabled(m, address, n, Started(tr), Acks(tr), WriteVerdict(tr, n), r, st);
    OpenSoFar(m, address, n, Started(tr), Acks(tr), r);
    CommandAfter(m, address, n, Started(tr), Acks(tr), r, st);
    hide WriteAt, Step, Allowed, Acks, Informative, Requests, Received, DataNacked;
  }

  lemma OpenSoFar(m: Master, address: byte, n: byte, started: bool, acks: nat, r: System)
    requires WellSized(m) && n <= TWI_BUFFER_LENGTH && WriteAt(m, address, n, started, acks, None, r)
    ensures !r.m.done
  {
  }

  lemma {:induction false} WriteCommanded(m: Master, address: byte, n: byte, tr: seq<Status>)
    requires BusFree(m) && n <= TWI_BUFFER_LENGTH && Legal(Writing(m, address, n), tr)
    ensures WriteCommand(tr, Run(Writing(m, address, n), tr).m)
  {
    var s := Writing(m, address, n);
    if tr != [] {
      LegalLast(s, tr);
      var before, st := tr[..|tr| - 1], tr[|tr| - 1];
      assert Run(s, tr) == Step(Run(s, before), st);
      hide *;
      WriteRun(m, address, n, before);
      WriteCommanded(m, address, n, before);
      WriteCommandStep(m, address, n, before, Run(s, before), st);
    }
  }

  /**
   Main result on writes: over every legal trace the bytes on the wire are a prefix of the frame, the transaction
   is over exactly when the trace shows an end, and the result tells the four ends apart.
   */
  lemma {:induction false} WriteOutcome(m: Master, address: byte, n: byte, tr: seq<Status>)
    requires BusFree(m) && n <= TWI_BUFFER_LENGTH && Legal(Writing(m, address, n), tr)
    ensures var r := Run(Writing(m, address, n), tr).m;
      && !r.fault && r.tx == m.tx && r.rx == m.rx
      && m.sent <= r.sent <= m.sent + Frame(m, address, n)
      && |r.sent| == |m.sent| + (if Started(tr) then 1 + Min(Acks(tr), n) else 0)
      && (r.done <==> WriteEnded(tr, n))
      && (r.transmitting <==> m.transmitting && !r.done)
      && (r.done ==>
            && BusFree(r)
            && (r.result == 0 <==> Acks(tr) == n + 1)
            && (r.result == 2 <==> MtSlaNack in tr)
            && (r.result == 3 <==> MtDataNack in tr)
            && (r.result == 4 <==> Lost(tr))
            && (r.result == 0 ==> r.sent == m.sent + Frame(m, address, n)))
      && (!r.done ==> r.result == m.result)
      && r.calls == (if r.done && m.callback then m.calls + [r.result] else m.calls)
      && r.control == (if r.done then Ending(tr) else if Started(tr) then Reply(true) else SendStart)
  {
    WriteRun(m, address, n, tr);
    WriteCommanded(m, address, n, tr);
    var f := Frame(m, address, n);
    assert f == f[..1 + n];
  }

  /** A request longer than the buffer is refused with result 1 before anything is sent. */
  lemma WriteTooLong(m: Master, address: byte, n: byte)
    requires BusFree(m) && n > TWI_BUFFER_LENGTH
    ensures var r := WriteTo(m, address, n);
      r.done && r.result == 1 && r.sent == m.sent && r.control == m.control && r.calls == m.calls && BusFree(r)
  {
  }

  // ---------------------------------------------------------------- reads

  function Reading(m: Master, address: byte, n: byte): (r: System)
    requires WellSized(m)
    ensures WellSized(r.m)
  {
    System(ReadFrom(m, address, n), Starting)
  }

  /** The replies for `c` requests of an `n`-byte read: acknowledge the first n - 1, refuse the n-th. */
  function Replies(n: byte, c: nat): seq<bool> {
    seq(c, k => k < n - 1)
  }

  ghost predicate ReadAt(m: Master, address: byte, n: byte, started: bool, c: nat, got: seq<byte>, ended: bool,
                         r: System)
    requires WellSized(m) && 1 <= n <= TWI_BUFFER_LENGTH
  {
    && WellSized(r.m) && !r.m.fault
    && r.m.tx == m.tx && r.m.callback == m.callback && r.m.allocs == m.allocs + 1
    && r.m.transmitting == m.transmitting
    && (c > 0 ==> started) && c <= n && |got| <= n && (|got| == n ==> ended)
    && r.m.sent == m.sent + (if started then [ToByte(2 * address) + 1] else [])
    && r.m.acks == m.acks + (if started then [true] + Replies(n, c) else [])
    && if !ended then
         && |got| == (if c == 0 then 0 else c - 1)
         && !r.m.done && r.m.result == m.result && r.m.state == Mrx && r.m.next == Read01
         && r.m.vars == Some(Vars(address, n)) && r.m.frees == m.frees && r.m.calls == m.calls && r.m.rx == m.rx
         && r.m.slarw == ToByte(2 * address) + 1 && r.m.length == n - 1
         && r.m.index == |got| && r.m.buffer[..|got|] == got
         && r.phase == (if !started then Starting else if c == 0 then Addressing(true) else Receiving(c < n))
       else
         && r.m.done && r.m.state == Ready && r.m.next == Nothing && r.phase == Quiet
         && r.m.vars == None && r.m.frees == m.frees + 1
         && r.m.result == |got| && r.m.rx == got + m.rx[|got|..]
         && r.m.calls == (if m.callback then m.calls + [r.m.result] else m.calls)
  }

  lemma ReadStarts(m: Master, address: byte, n: byte)
    requires BusFree(m) && 1 <= n <= TWI_BUFFER_LENGTH
    ensures ReadAt(m, address, n, false, 0, [], false, Reading(m, address, n))
  {
  }

  lemma ReadStepStart(m: Master, address: byte, n: byte, r: System, st: Status)
    requires WellSized(m) && 1 <= n <= TWI_BUFFER_LENGTH && ReadAt(m, address, n, false, 0, [], false, r)
    requires st == Start || st == RepStart
    ensures ReadAt(m, address, n, true, 0, [], false, Step(r, st))
  {
    assert [true] + Replies(n, 0) == [true];
  }

  lemma ReadStepAddressed(m: Master, address: byte, n: byte, r: System)
    requires WellSized(m) && 1 <= n <= TWI_BUFFER_LENGTH && ReadAt(m, address, n, true, 0, [], false, r)
    ensures ReadAt(m, address, n, true, 1, [], false, Step(r, MrSlaAck))
  {
    assert [true] + Replies(n, 1) == [true] + Replies(n, 0) + [0 < n - 1];
  }

  lemma ReadStepAck(m: Master, address: byte, n: byte, c: nat, got: seq<byte>, r: System, b: byte)
    requires WellSized(m) && 1 <= n <= TWI_BUFFER_LENGTH && ReadAt(m, address, n, true, c, got, false, r)
    requires 0 < c && Allowed(r.phase, MrDataAck(b))
    ensures ReadAt(m, address, n, true, c + 1, got + [b], false, Step(r, MrDataAck(b)))
  {
    assert Replies(n, c + 1) == Replies(n, c) + [c < n - 1];
    assert [true] + Replies(n, c + 1) == [true] + Replies(n, c) + [c < n - 1];
    assert r.m.buffer[|got| := b][..|got| + 1] == got + [b];
  }

  lemma ReadStepNack(m: Master, address: byte, n: byte, c: nat, got: seq<byte>, r: System, b: byte)
    requires WellSized(m) && 1 <= n <= TWI_BUFFER_LENGTH && ReadAt(m, address, n, true, c, got, false, r)
    requires 0 < c && Allowed(r.phase, MrDataNack(b))
    ensures |got| == n - 1 && c == n
    ensures ReadAt(m, address, n, true, c, got + [b], true, Step(r, MrDataNack(b)))
  {
    assert r.m.buffer[|got| := b][..|got| + 1] == got + [b];
  }

  lemma ReadStepFail(m: Master, address: byte, n: byte, started: bool, c: nat, got: seq<byte>, r: System, st: Status)
    requires WellSized(m) && 1 <= n <= TWI_BUFFER_LENGTH && ReadAt(m, address, n, started, c, got, false, r)
    requires Allowed(r.phase, st) && (st == MrSlaNack || st == ArbLost || st == BusError)
    ensures ReadAt(m, address, n, started, c, got, true, Step(r, st))
  {
  }

  ghost predicate ReadInv(m: Master, address: byte, n: byte, tr: seq<Status>, r: System)
    requires WellSized(m) && 1 <= n <= TWI_BUFFER_LENGTH
  {
    && ReadAt(m, address, n, Started(tr), Requests(tr), Received(tr), ReadEnded(tr), r)
    && (DataNacked(tr) <==> |Received(tr)| == n)
    && (DataNacked(tr) ==> !Lost(tr) && MrSlaNack !in tr)
  }

  /** The state of an open read after one more interrupt, in terms of the old and new summaries. */
  lemma ReadAtStep(m: Master, address: byte, n: byte, started: bool, c: nat, got: seq<byte>, r: System, st: Status)
    requires WellSized(m) && 1 <= n <= TWI_BUFFER_LENGTH
    requires ReadAt(m, address, n, started, c, got, false, r) && Allowed(r.phase, st)
    ensures !(st.MtSlaAck? || st.MtSlaNack? || st.MtDataAck? || st.MtDataNack?)
    ensures st.MrDataNack? <==> |if st.MrDataAck? || st.MrDataNack? then got + [st.data] else got| == n
    ensures ReadAt(
              m, address, n, started || st == Start || st == RepStart,
              if st == MrSlaAck || st.MrDataAck? then c + 1 else c,
              if st.MrDataAck? || st.MrDataNack? then got + [st.data] else got,
              st.MrDataNack? || st == MrSlaNack || st == ArbLost || st == BusError, Step(r, st))
  {
    match st {
      case Start | RepStart => ReadStepStart(m, address, n, r, st);
      case MrSlaAck => ReadStepAddressed(m, address, n, r);
      case MrDataAck(b) => ReadStepAck(m, address, n, c, got, r, b);
      case MrDataNack(b) => ReadStepNack(m, address, n, c, got, r, b);
      case MrSlaNack | ArbLost | BusError => ReadStepFail(m, address, n, started, c, got, r, st);
      case NoInfo => assert Step(r, st) == r;
      case _ => assert false;
    }
  }

  lemma {:induction false} ReadStep(m: Master, address: byte, n: byte, tr: seq<Status>, r: System, st: Status)
    requires WellSized(m) && 1 <= n <= TWI_BUFFER_LENGTH
    requires ReadInv(m, address, n, tr, r) && Allowed(r.phase, st)
    ensures ReadInv(m, address, n, tr + [st], Step(r, st))
  {
    Snoc(tr, st);
    assert !ReadEnded(tr);
    ReadAtStep(m, address, n, Started(tr), Requests(tr), Received(tr), r, st);
    assert |Received(tr)| != n;
    hide Step, Allowed, ReadAt;
  }

  lemma {:induction false} ReadInvAlong(m: Master, address: byte, n: byte, s: System, tr: seq<Status>)
    requires WellSized(m) && 1 <= n <= TWI_BUFFER_LENGTH && ReadInv(m, address, n, [], s) && Legal(s, tr)
    ensures ReadInv(m, address, n, tr, Run(s, tr))
  {
    if tr != [] {
      LegalLast(s, tr);
      var before, st := tr[..|tr| - 1], tr[|tr| - 1];
      assert Run(s, tr) == Step(Run(s, before), st);
      hide *;
      ReadInvAlong(m, address, n, s, before);
      ReadStep(m, address, n, before, Run(s, before), st);
    }
  }

  lemma {:induction false} ReadRun(m: Master, address: byte, n: byte, tr: seq<Status>)
    requires BusFree(m) && 1 <= n <= TWI_BUFFER_LENGTH && Legal(Reading(m, address, n), tr)
    ensures ReadInv(m, address, n, tr, Run(Reading(m, address, n), tr))
  {
    ReadStarts(m, address, n);
    ReadInvAlong(m, address, n, Reading(m, address, n), tr);
  }

  /** The same for reads: each request for a byte is answered by an acknowledgement, but the n-th. */
  predicate ReadCommand(n: byte, tr: seq<Status>, m: Master) {
    m.control ==
      if m.done then Ending(tr) else if Started(tr) then Reply(Requests(tr) == 0 || Requests(tr) < n) else SendStart
  }

  lemma ReadCommandStep(m: Master, address: byte, n: byte, tr: seq<Status>, r: System, st: Status)
    requires WellSized(m) && 1 <= n <= TWI_BUFFER_LENGTH && ReadInv(m, address, n, tr, r) && Allowed(r.phase, st)
    requires ReadCommand(n, tr, r.m)
    ensures ReadCommand(n, tr + [st], Step(r, st).m)
  {
    Snoc(tr, st);
    hide Acks, Informative, Requests, Received, DataNacked, NextPhase, Replies;
  }

  lemma {:induction false} ReadCommanded(m: Master, address: byte, n: byte, tr: seq<Status>)
    requires BusFree(m) && 1 <= n <= TWI_BUFFER_LENGTH && Legal(Reading(m, address, n), tr)
    ensures ReadCommand(n, tr, Run(Reading(m, address, n), tr).m)
  {
    var s := Reading(m, address, n);
    if tr != [] {
      LegalLast(s, tr);
      var before, st := tr[..|tr| - 1], tr[|tr| - 1];
      assert Run(s, tr) == Step(Run(s, before), st);
      hide *;
      ReadRun(m, address, n, before);
      ReadCommanded(m, address, n, before);
      ReadCommandStep(m, address, n, before, Run(s, before), st);
    }
  }

  /**
   Main result on reads: over every legal trace the rx buffer receives exactly the bytes the slave sent, in order;
   the driver refuses only the n-th byte; the read is complete exactly when that refused byte arrived.
   */
  lemma {:induction false} ReadOutcome(m: Master, address: byte, n: byte, tr: seq<Status>)
    requires BusFree(m) && 1 <= n <= TWI_BUFFER_LENGTH && Legal(Reading(m, address, n), tr)
    ensures var r := Run(Reading(m, address, n), tr).m;
      && !r.fault && r.tx == m.tx
      && r.sent == m.sent + (if Started(tr) then [ToByte(2 * address) + 1] else [])
      && r.acks == m.acks + (if Started(tr) then [true] + Replies(n, Requests(tr)) else [])
      && |Received(tr)| <= n
      && (r.done <==> ReadEnded(tr))
      && r.transmitting == m.transmitting
      && (!r.done ==> r.result == m.result && r.rx == m.rx && r.index == |Received(tr)| < n)
      && (r.done ==>
            && BusFree(r)
            && r.result == |Received(tr)|
            && r.rx == Received(tr) + m.rx[|Received(tr)|..]
            && (r.result == n <==> DataNacked(tr)))
      && r.calls == (if r.done && m.callback then m.calls + [r.result] else m.calls)
      && r.control == (if r.done then Ending(tr)
                       else if Started(tr) then Reply(Requests(tr) == 0 || Requests(tr) < n) else SendStart)
  {
    ReadRun(m, address, n, tr);
    ReadCommanded(m, address, n, tr);
  }

  // ---------------------------------------------------------------- both kinds of transaction

  /** `ptwv` is allocated exactly while a continuation is pending, and each allocation is freed once. */
  ghost predicate Owned(m: Master, r: Master) {
    && (r.vars.Some? <==> r.next != Nothing)
    && (r.vars.Some? <==> !r.done)
    && r.allocs == m.allocs + 1
    && r.frees == m.frees + (if r.done then 1 else 0)
  }

  lemma {:induction false} OwnershipDuringWrite(m: Master, address: byte, n: byte, tr: seq<Status>)
    requires BusFree(m) && n <= TWI_BUFFER_LENGTH && Legal(Writing(m, address, n), tr)
    ensures Owned(m, Run(Writing(m, address, n), tr).m)
  {
    WriteRun(m, address, n, tr);
  }

  lemma {:induction false} OwnershipDuringRead(m: Master, address: byte, n: byte, tr: seq<Status>)
    requires BusFree(m) && 1 <= n <= TWI_BUFFER_LENGTH && Legal(Reading(m, address, n), tr)
    ensures Owned(m, Run(Reading(m, address, n), tr).m)
  {
    ReadRun(m, address, n, tr);
  }

  /** Only an open write is interrupted, and it is started once. */
  lemma WriteOpenBefore(m: Master, address: byte, n: byte, s: System, tr: seq<Status>, st: Status)
    requires WellSized(m) && n <= TWI_BUFFER_LENGTH && WriteInv(m, address, n, [], s) && Legal(s, tr)
    requires Allowed(Run(s, tr).phase, st)
    ensures MtSlaNack !in tr && MtDataNack !in tr && !Lost(tr)
    ensures (st == Start || st == RepStart) ==> !Started(tr)
    ensures !(st.MrSlaAck? || st.MrSlaNack? || st.MrDataAck? || st.MrDataNack?)
  {
    WriteInvAlong(m, address, n, s, tr);
    WriteEnabled(m, address, n, Started(tr), Acks(tr), WriteVerdict(tr, n), Run(s, tr), st);
  }

  lemma ReadOpenBefore(m: Master, address: byte, n: byte, s: System, tr: seq<Status>, st: Status)
    requires WellSized(m) && 1 <= n <= TWI_BUFFER_LENGTH && ReadInv(m, address, n, [], s) && Legal(s, tr)
    requires Allowed(Run(s, tr).phase, st)
    ensures !ReadEnded(tr)
    ensures (st == Start || st == RepStart) ==> !Started(tr)
    ensures !(st.MtSlaAck? || st.MtSlaNack? || st.MtDataAck? || st.MtDataNack?)
  {
    ReadInvAlong(m, address, n, s, tr);
  }

  function WriteBudget(tr: seq<Status>): nat {
    Acks(tr) + (if Started(tr) then 1 else 0) + (if MtSlaNack in tr || MtDataNack in tr || Lost(tr) then 1 else 0)
  }

  function ReadBudget(tr: seq<Status>): nat {
    Requests(tr) + (if Started(tr) then 1 else 0) + (if ReadEnded(tr) then 1 else 0)
  }

  lemma WriteBudgetSnoc(tr: seq<Status>, st: Status)
    requires MtSlaNack !in tr && MtDataNack !in tr && !Lost(tr) && (st == Start || st == RepStart ==> !Started(tr))
    requires !(st.MrSlaAck? || st.MrSlaNack? || st.MrDataAck? || st.MrDataNack?)
    ensures Informative(tr) <= WriteBudget(tr) ==> Informative(tr + [st]) <= WriteBudget(tr + [st])
  {
    hide Acks, Informative, Started, Lost;
    Snoc(tr, st);
  }

  lemma {:induction false} WriteInBudget(m: Master, address: byte, n: byte, s: System, tr: seq<Status>)
    requires WellSized(m) && n <= TWI_BUFFER_LENGTH && WriteInv(m, address, n, [], s) && Legal(s, tr)
    ensures Informative(tr) <= WriteBudget(tr)
  {
    if tr != [] {
      hide *;
      LegalLast(s, tr);
      var p, st := tr[..|tr| - 1], tr[|tr| - 1];
      WriteInBudget(m, address, n, s, p);
      WriteOpenBefore(m, address, n, s, p, st);
      WriteBudgetSnoc(p, st);
    }
  }

  lemma ReadBudgetSnoc(tr: seq<Status>, st: Status)
    requires !ReadEnded(tr) && (st == Start || st == RepStart ==> !Started(tr))
    requires !(st.MtSlaAck? || st.MtSlaNack? || st.MtDataAck? || st.MtDataNack?)
    ensures Informative(tr) <= ReadBudget(tr) ==> Informative(tr + [st]) <= ReadBudget(tr + [st])
  {
    Snoc(tr, st);
  }

  lemma {:induction false} ReadInBudget(m: Master, address: byte, n: byte, s: System, tr: seq<Status>)
    requires WellSized(m) && 1 <= n <= TWI_BUFFER_LENGTH && ReadInv(m, address, n, [], s) && Legal(s, tr)
    ensures Informative(tr) <= ReadBudget(tr)
  {
    if tr != [] {
      hide *;
      LegalLast(s, tr);
      var p, st := tr[..|tr| - 1], tr[|tr| - 1];
      ReadInBudget(m, address, n, s, p);
      ReadOpenBefore(m, address, n, s, p, st);
      ReadBudgetSnoc(p, st);
    }
  }

  /** Every write ends: n + 2 interrupts that carry information are enough, and nothing is legal afterwards. */
  lemma {:induction false} WritesEnd(m: Master, address: byte, n: byte, tr: seq<Status>, st: Status)
    requires BusFree(m) && n <= TWI_BUFFER_LENGTH && Legal(Writing(m, address, n), tr)
    ensures var r := Run(Writing(m, address, n), tr);
      && Informative(tr) <= n + 2
      && (Informative(tr) == n + 2 ==> r.m.done)
      && (r.m.done ==> !Allowed(r.phase, st))
      && (!r.m.done ==> Allowed(r.phase, NoInfo))
  {
    WriteRun(m, address, n, tr);
    WriteStarts(m, address, n);
    WriteInBudget(m, address, n, Writing(m, address, n), tr);
  }

  lemma {:induction false} ReadsEnd(m: Master, address: byte, n: byte, tr: seq<Status>, st: Status)
    requires BusFree(m) && 1 <= n <= TWI_BUFFER_LENGTH && Legal(Reading(m, address, n), tr)
    ensures var r := Run(Reading(m, address, n), tr);
      && Informative(tr) <= n + 2
      && (Informative(tr) == n + 2 ==> r.m.done)
      && (r.m.done ==> !Allowed(r.phase, st))
      && (!r.m.done ==> Allowed(r.phase, NoInfo))
  {
    ReadRun(m, address, n, tr);
    ReadStarts(m, address, n);
    ReadInBudget(m, address, n, Reading(m, address, n), tr);
  }

  lemma {:induction false} LegalPrefix(s: System, tr: seq<Status>, k: nat)
    requires WellSized(s.m) && k <= |tr| && Legal(s, tr)
    ensures Legal(s, tr[..k])
  {
    if k == |tr| {
      assert tr[..k] == tr;
    } else {
      LegalPrefix(s, tr[..|tr| - 1], k);
      assert tr[..|tr| - 1][..k] == tr[..k];
    }
  }

  /** No prefix of a legal trace makes the driver leave its buffers or follow a null `ptwv`. */
  lemma {:induction false} WritesAreSafe(m: Master, address: byte, n: byte, tr: seq<Status>)
    requires BusFree(m) && n <= TWI_BUFFER_LENGTH && Legal(Writing(m, address, n), tr)
    ensures forall k :: 0 <= k <= |tr| ==> !Run(Writing(m, address, n), tr[..k]).m.fault
  {
    forall k | 0 <= k <= |tr|
      ensures !Run(Writing(m, address, n), tr[..k]).m.fault
    {
      LegalPrefix(Writing(m, address, n), tr, k);
      WriteRun(m, address, n, tr[..k]);
    }
  }

  lemma {:induction false} ReadsAreSafe(m: Master, address: byte, n: byte, tr: seq<Status>)
    requires BusFree(m) && 1 <= n <= TWI_BUFFER_LENGTH && Legal(Reading(m, address, n), tr)
    ensures forall k :: 0 <= k <= |tr| ==> !Run(Reading(m, address, n), tr[..k]).m.fault
  {
    forall k | 0 <= k <= |tr|
      ensures !Run(Reading(m, address, n), tr[..k]).m.fault
    {
      LegalPrefix(Reading(m, address, n), tr, k);
      ReadRun(m, address, n, tr[..k]);
    }
  }
}
