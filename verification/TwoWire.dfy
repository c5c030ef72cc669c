/**
 The interrupt-driven I2C master of I2Cdev.cpp (NBWire), as the object the source makes of it: static variables
 and buffers updated in place by the interrupt handler and its continuations, under the `TwoWire` interface.
 Every method is tied to the function of the same name in module Twi.
 */
module TwoWire {
  import opened Bytes
  import T = Twi

  /** `twi_Write_Vars`: one heap record per pending transaction. */
  class TwiVars {
    var address: byte
    var data: array<byte>
    var length: byte

    constructor (address: byte, data: array<byte>, length: byte)
      ensures this.address == address && this.data == data && this.length == length
    {
      this.address, this.data, this.length := address, data, length;
    }
  }

  /** The static `twi_*` variables and functions. */
  class Driver {
    var state: T.BusState
    var slarw: byte
    var error: byte
    const masterBuffer: array<byte>
    var index: byte
    var length: byte
    const txBuffer: array<byte>
    const rxBuffer: array<byte>
    var ptwv: TwiVars?
    var next: T.Continuation
    var finished: bool
    var result: byte
    var transmitting: bool
    var callback: bool
    var twdr: byte
    var control: T.Control
    ghost var sent: seq<byte>
    ghost var acks: seq<bool>
    ghost var calls: seq<byte>
    ghost var allocs: nat
    ghost var frees: nat

    ghost predicate Valid()
      reads this, ptwv
    {
      && masterBuffer.Length == txBuffer.Length == rxBuffer.Length == T.TWI_BUFFER_LENGTH
      && masterBuffer != txBuffer && masterBuffer != rxBuffer && txBuffer != rxBuffer
      && (ptwv != null && (next == T.Write00 || next == T.Write01) ==> ptwv.data == txBuffer)
      && (ptwv != null && (next == T.Read00 || next == T.Read01) ==> ptwv.data == rxBuffer)
    }

    /** The driver as a value. */
    ghost function Model(): (m: T.Master)
      requires Valid()
      reads this, ptwv, masterBuffer, txBuffer, rxBuffer
      ensures T.WellSized(m) && !m.fault
    {
      T.Master(state, slarw, error, masterBuffer[..], index, length, txBuffer[..], rxBuffer[..],
               if ptwv == null then None else Some(T.Vars(ptwv.address, ptwv.length)), next,
               finished, result, transmitting, callback, twdr, control, sent, acks, calls, allocs, frees, false)
    }

    constructor ()
      ensures Valid() && T.BusFree(Model()) && fresh(masterBuffer) && fresh(txBuffer) && fresh(rxBuffer)
    {
      masterBuffer := new byte[T.TWI_BUFFER_LENGTH](i => 0);
      txBuffer := new byte[T.TWI_BUFFER_LENGTH](i => 0);
      rxBuffer := new byte[T.TWI_BUFFER_LENGTH](i => 0);
      state, slarw, error, index, length := T.Ready, 0, 0, 0, 0;
      ptwv, next, finished, result, transmitting, callback := null, T.Nothing, false, 0, false, false;
      twdr, control := 0, T.Idle;
      sent, acks, calls, allocs, frees := [], [], [], 0, 0;
    }

    // -------------------------------------------------------------- continuations

    method Finish(r: byte)
      requires Valid()
      modifies `ptwv, `finished, `result, `next, `frees
      ensures Valid() && Model() == T.Finish(old(Model()), r)
    {
      if ptwv != null {
        frees := frees + 1;
        ptwv := null;
      }
      finished := true;
      result := r;
      next := T.Nothing;
    }

    method Notify()
      requires Valid()
      modifies `calls
      ensures Valid() && Model() == T.Notify(old(Model()))
    {
      if callback {
        calls := calls + [result];
      }
    }

    method Write01()
      requires Valid()
      modifies `ptwv, `finished, `result, `next, `frees, `calls, `transmitting
      ensures Valid() && Model() == T.TwiWrite01(old(Model()))
      ensures ptwv == null || ptwv == old(ptwv)
    {
      if state == T.Mtx {
        return;
      }
      transmitting := false;
      if error == T.NO_ERROR {
        Finish(0);
      } else if error == T.MT_SLA_NACK {
        Finish(2);
      } else if error == T.MT_DATA_NACK {
        Finish(3);
      } else {
        Finish(4);
      }
      Notify();
    }

    method Request(address: byte, data: array<byte>, n: byte, start: T.Continuation)
      requires Valid()
      requires (start == T.Write00 && data == txBuffer) || (start == T.Read00 && data == rxBuffer)
      modifies `ptwv, `allocs, `next
      ensures Valid() && Model() == T.Request(old(Model()), address, n, start)
      ensures fresh(ptwv) && ptwv.data == data
    {
      ptwv := new TwiVars(address, data, n);
      allocs := allocs + 1;
      next := start;
    }

    method CopyToBuf(data: array<byte>, n: byte)
      requires n <= data.Length && n <= masterBuffer.Length && data != masterBuffer
      modifies masterBuffer
      ensures masterBuffer[..] == data[..n] + old(masterBuffer[..])[n..]
    {
      for i := 0 to n
        invariant forall k :: 0 <= k < masterBuffer.Length ==>
          masterBuffer[k] == if k < i then data[k] else old(masterBuffer[k])
      {
        masterBuffer[i] := data[i];
      }
    }

    method CopyFromBuf(data: array<byte>, n: byte)
      requires n <= data.Length && n <= masterBuffer.Length && data != masterBuffer
      modifies data
      ensures data[..] == masterBuffer[..n] + old(data[..])[n..]
    {
      for i := 0 to n
        invariant forall k :: 0 <= k < data.Length ==> data[k] == if k < i then masterBuffer[k] else old(data[k])
      {
        data[i] := masterBuffer[i];
      }
    }

    method MarkBusy(busy: T.BusState)
      requires Valid()
      modifies `finished, `state, `error
      ensures Valid() && Model() == T.MarkBusy(old(Model()), busy)
    {
      finished := false;
      state := busy;
      error := T.NO_ERROR;
    }

    method InitBuffer(n: byte)
      requires Valid()
      modifies `index, `length
      ensures Valid() && Model() == T.InitBuffer(old(Model()), n)
    {
      index := 0;
      length := n;
    }

    /** Sets the address byte and asks for a start condition. */
    method Address(b: byte, first: T.Continuation)
      requires Valid() && (first == T.Write01 ==> next == T.Write00) && (first == T.Read01 ==> next == T.Read00)
      requires first == T.Write01 || first == T.Read01
      modifies `slarw, `control, `next
      ensures Valid() && Model() == T.Address(old(Model()), b, first)
    {
      slarw := b;
      control := T.SendStart;
      next := first;
    }

    method OpenWrite()
      requires Valid() && ptwv != null && ptwv.data == txBuffer && ptwv.length <= T.TWI_BUFFER_LENGTH
      requires next == T.Write00
      modifies `finished, `state, `error, `index, `length, `slarw, `control, `next, masterBuffer
      ensures Valid() && Model() == T.OpenWrite(old(Model()), T.Vars(ptwv.address, ptwv.length))
    {
      MarkBusy(T.Mtx);
      InitBuffer(ptwv.length);
      CopyToBuf(ptwv.data, ptwv.length);
      Address(ToByte(2 * ptwv.address), T.Write01);
    }

    method Write00()
      requires Valid() && ptwv != null && ptwv.data == txBuffer && next == T.Write00
      modifies this, masterBuffer
      ensures Valid() && Model() == T.TwiWrite00(old(Model()))
      ensures ptwv == null || ptwv == old(ptwv)
    {
      if state != T.Ready {
        return;
      }
      if T.TWI_BUFFER_LENGTH < ptwv.length {
        Finish(1);
        return;
      }
      OpenWrite();
      Write01();
    }

    method WriteTo(address: byte, data: array<byte>, n: byte)
      requires Valid() && data == txBuffer
      modifies this, masterBuffer
      ensures Valid() && Model() == T.WriteTo(old(Model()), address, n)
      ensures ptwv == null || fresh(ptwv)
    {
      Request(address, data, n, T.Write00);
      Write00();
    }

    method Read01()
      requires Valid() && !T.TwiRead01(Model()).fault
      requires ptwv != null ==> ptwv.data == rxBuffer
      modifies this, rxBuffer, ptwv
      ensures Valid() && Model() == T.TwiRead01(old(Model()))
      ensures ptwv == null || ptwv == old(ptwv)
    {
      if state == T.Mrx {
        return;
      }
      if index < ptwv.length {
        ptwv.length := index;
      }
      CopyFromBuf(ptwv.data, ptwv.length);
      Finish(ptwv.length);
      Notify();
    }

    method OpenRead()
      requires Valid() && ptwv != null && ptwv.data == rxBuffer && next == T.Read00
      modifies `finished, `state, `error, `index, `length, `slarw, `control, `next
      ensures Valid() && Model() == T.OpenRead(old(Model()), T.Vars(ptwv.address, ptwv.length))
    {
      MarkBusy(T.Mrx);
      InitBuffer(ToByte(ptwv.length - 1));
      Address(ToByte(2 * ptwv.address) + 1, T.Read01);
    }

    method Read00()
      requires Valid() && ptwv != null && ptwv.data == rxBuffer && next == T.Read00 && !T.TwiRead00(Model()).fault
      modifies this, rxBuffer, ptwv
      ensures Valid() && Model() == T.TwiRead00(old(Model()))
      ensures ptwv == null || ptwv == old(ptwv)
    {
      if state != T.Ready {
        return;
      }
      OpenRead();
      Read01();
    }

    method ReadFrom(address: byte, data: array<byte>, n: byte)
      requires Valid() && data == rxBuffer && !T.ReadFrom(Model(), address, n).fault
      modifies this, rxBuffer
      ensures Valid() && Model() == T.ReadFrom(old(Model()), address, n)
      ensures ptwv == null || fresh(ptwv)
    {
      Request(address, data, n, T.Read00);
      Read00();
    }

    // -------------------------------------------------------------- the interrupt handler

    method Reply(ack: bool)
      requires Valid()
      modifies `control, `acks
      ensures Valid() && Model() == T.ReplyWith(old(Model()), ack)
    {
      control := T.Reply(ack);
      acks := acks + [ack];
    }

    method StopBus()
      requires Valid()
      modifies `control, `state
      ensures Valid() && Model() == T.StopBus(old(Model()))
    {
      control := T.Stop;
      state := T.Ready;
    }

    method Fail(code: byte)
      requires Valid()
      modifies `error, `control, `state
      ensures Valid() && Model() == T.Fail(old(Model()), code)
    {
      error := code;
      StopBus();
    }

    method PutByte(b: byte)
      requires Valid()
      modifies `twdr, `sent
      ensures Valid() && Model() == T.PutByte(old(Model()), b)
    {
      twdr := b;
      sent := sent + [b];
    }

    method SendNext()
      requires Valid() && !T.SendNext(Model()).fault
      modifies `twdr, `sent, `index, `control, `acks, `state
      ensures Valid() && Model() == T.SendNext(old(Model()))
    {
      if index < length {
        PutByte(masterBuffer[index]);
        index := ToByte(index + 1);
        Reply(true);
      } else {
        StopBus();
      }
    }

    /** Takes the data byte the hardware latched in TWDR. */
    method StoreByte(b: byte)
      requires Valid() && !T.StoreByte(Model(), b).fault
      modifies `twdr, `index, masterBuffer
      ensures Valid() && Model() == T.StoreByte(old(Model()), b)
    {
      twdr := b;
      masterBuffer[index] := twdr;
      index := ToByte(index + 1);
    }

    method AskForMore()
      requires Valid()
      modifies `control, `acks
      ensures Valid() && Model() == T.AskForMore(old(Model()))
    {
      if index < length {
        Reply(true);
      } else {
        Reply(false);
      }
    }

    /** The `switch` of SIGNAL(TWI_vect). */
    method Handle(st: T.Status)
      requires Valid() && !T.Handle(Model(), st).fault
      modifies `error, `control, `state, `acks, `twdr, `sent, `index, masterBuffer
      ensures Valid() && Model() == T.Handle(old(Model()), st)
    {
      match st {
        case Start | RepStart =>
          PutByte(slarw);
          Reply(true);
        case MtSlaAck | MtDataAck =>
          SendNext();
        case MtSlaNack =>
          Fail(T.MT_SLA_NACK);
        case MtDataNack =>
          Fail(T.MT_DATA_NACK);
        case ArbLost =>
          error := T.MT_ARB_LOST;
          control := T.Release;
          state := T.Ready;
        case MrDataAck(b) =>
          StoreByte(b);
          AskForMore();
        case MrSlaAck =>
          AskForMore();
        case MrDataNack(b) =>
          StoreByte(b);
          StopBus();
        case MrSlaNack =>
          StopBus();
        case NoInfo =>
        case BusError =>
          Fail(T.BUS_ERROR);
      }
    }

    method Signal(st: T.Status)
      requires Valid() && !T.Signal(Model(), st).fault
      modifies this, masterBuffer, rxBuffer, ptwv
      ensures Valid() && Model() == T.Signal(old(Model()), st)
      ensures ptwv == null || ptwv == old(ptwv)
    {
      Handle(st);
      match next {
        case Nothing =>
        case Write00 => Write00();
        case Write01 => Write01();
        case Read00 => Read00();
        case Read01 => Read01();
      }
    }

    /** The interrupts raised until `twii_WaitForDone` returns. */
    method Interrupts(tr: seq<T.Status>, ghost s: T.System)
      requires Valid() && Model() == s.m
      requires forall k :: 0 <= k <= |tr| ==> !T.Run(s, tr[..k]).m.fault
      modifies this, masterBuffer, rxBuffer, ptwv
      ensures Valid() && Model() == T.Run(s, tr).m
    {
      assert tr[..0] == [];
      for i := 0 to |tr|
        invariant Valid() && Model() == T.Run(s, tr[..i]).m
        invariant ptwv == null || ptwv == old(ptwv)
      {
        T.RunNext(s, tr, i);
        Signal(tr[i]);
      }
      assert tr[..|tr|] == tr;
    }
  }

  /** The `TwoWire` interface over the driver. */
  class Wire {
    const twi: Driver
    var txAddress: byte
    var txBufferIndex: byte
    var txBufferLength: byte
    var rxBufferIndex: byte
    var rxBufferLength: byte

    ghost predicate Valid()
      reads this, twi, twi.ptwv
    {
      twi.Valid() && txBufferIndex == txBufferLength <= T.TWI_BUFFER_LENGTH
    }

    /** The bytes queued for the next transmission. */
    ghost function Queued(): seq<byte>
      requires Valid()
      reads this, twi, twi.ptwv, twi.txBuffer
    {
      twi.txBuffer[..txBufferLength]
    }

    /** The received bytes that have not been taken yet. */
    ghost function Pending(): seq<byte>
      requires Valid() && rxBufferIndex <= rxBufferLength <= T.TWI_BUFFER_LENGTH
      reads this, twi, twi.ptwv, twi.rxBuffer
    {
      twi.rxBuffer[rxBufferIndex..rxBufferLength]
    }

    constructor ()
      ensures Valid() && T.BusFree(twi.Model()) && fresh(twi) && Queued() == []
      ensures fresh(twi.masterBuffer) && fresh(twi.txBuffer) && fresh(twi.rxBuffer)
      ensures rxBufferIndex == rxBufferLength == 0
    {
      twi := new Driver();
      txAddress, txBufferIndex, txBufferLength, rxBufferIndex, rxBufferLength := 0, 0, 0, 0, 0;
    }

    method BeginTransmission(address: byte)
      requires Valid()
      modifies `txAddress, `txBufferIndex, `txBufferLength, twi`transmitting
      ensures Valid() && Queued() == [] && txAddress == address
      ensures twi.Model() == old(twi.Model()).(transmitting := true)
    {
      twi.transmitting := true;
      txAddress := address;
      txBufferIndex, txBufferLength := 0, 0;
    }

    /** Queues a byte; outside a transmission, or when 32 bytes are queued, it is dropped. */
    method Send(data: byte)
      requires Valid()
      modifies `txBufferIndex, `txBufferLength, twi.txBuffer
      ensures Valid()
      ensures Queued() == if twi.transmitting && |old(Queued())| < T.TWI_BUFFER_LENGTH then old(Queued()) + [data]
                          else old(Queued())
      ensures twi.Model() == old(twi.Model()).(tx := twi.txBuffer[..])
    {
      if twi.transmitting {
        if txBufferLength >= T.TWI_BUFFER_LENGTH {
          return;
        }
        twi.txBuffer[txBufferIndex] := data;
        txBufferIndex := txBufferIndex + 1;
        txBufferLength := txBufferIndex;
      }
    }

    /** Starts the queued transmission and takes the interrupts `tr`. */
    method Transmit(tr: seq<T.Status>)
      requires Valid() && T.BusFree(twi.Model())
      requires T.Legal(T.Writing(twi.Model().(callback := false), txAddress, txBufferLength), tr)
      modifies twi, twi.masterBuffer, twi.rxBuffer
      ensures Valid()
      ensures twi.Model() == T.Run(T.Writing(old(twi.Model()).(callback := false), txAddress, txBufferLength), tr).m
    {
      twi.callback := false;
      ghost var m := twi.Model();
      twi.WriteTo(txAddress, twi.txBuffer, txBufferLength);
      T.WritesAreSafe(m, txAddress, txBufferLength, tr);
      twi.Interrupts(tr, T.Writing(m, txAddress, txBufferLength));
    }

    /**
     Sends what is queued and waits; `tr` are the interrupts until the wait ends. If they complete the transaction,
     0 means the address and all queued bytes went out and were acknowledged; if they do not (a timeout), the
     result of the previous transaction is returned. So 0 stands for success exactly when the transaction was completed,
     or when the previous result was no success.
     */
    method EndTransmission(tr: seq<T.Status>) returns (ret: byte)
      requires Valid() && T.BusFree(twi.Model())
      requires T.Legal(T.Writing(twi.Model().(callback := false), txAddress, txBufferLength), tr)
      modifies `txBufferIndex, `txBufferLength, twi, twi.masterBuffer, twi.rxBuffer
      ensures Valid() && Queued() == []
      ensures ret == twi.result && rxBufferIndex == old(rxBufferIndex) && rxBufferLength == old(rxBufferLength)
      ensures old(twi.result) <= T.TWI_BUFFER_LENGTH ==> ret <= T.TWI_BUFFER_LENGTH
      ensures !T.WriteEnded(tr, old(txBufferLength)) ==> ret == old(twi.result)
      ensures twi.control == (if T.WriteEnded(tr, old(txBufferLength)) then T.Ending(tr)
                              else if T.Started(tr) then T.Reply(true) else T.SendStart)
      ensures twi.transmitting <==> old(twi.transmitting) && !T.WriteEnded(tr, old(txBufferLength))
      ensures (ret == 0 <==> T.Acks(tr) == old(txBufferLength) + 1) <==>
        T.WriteEnded(tr, old(txBufferLength)) || old(twi.result) != 0
      ensures T.WriteEnded(tr, old(txBufferLength)) ==>
        && T.BusFree(twi.Model())
        && (ret == 0 <==> T.Acks(tr) == |old(Queued())| + 1)
        && (ret == 2 <==> T.MtSlaNack in tr) && (ret == 3 <==> T.MtDataNack in tr) && (ret == 4 <==> T.Lost(tr))
        && (ret == 0 ==> twi.sent == old(twi.sent) + ([ToByte(2 * txAddress)] + old(Queued())))
    {
      ghost var m, n := twi.Model().(callback := false), txBufferLength;
      Transmit(tr);
      T.WriteOutcome(m, txAddress, n, tr);
      ret := twi.result;
      txBufferIndex, txBufferLength := 0, 0;
    }

    /** Starts a read of `n` bytes and takes the interrupts `tr`. */
    method Fetch(address: byte, n: byte, tr: seq<T.Status>)
      requires Valid() && T.BusFree(twi.Model()) && 1 <= n <= T.TWI_BUFFER_LENGTH
      requires T.Legal(T.Reading(twi.Model().(callback := false), address, n), tr)
      modifies twi, twi.masterBuffer, twi.rxBuffer
      ensures Valid()
      ensures twi.Model() == T.Run(T.Reading(old(twi.Model()).(callback := false), address, n), tr).m
    {
      twi.callback := false;
      ghost var m := twi.Model();
      T.ReadStarts(m, address, n);
      twi.ReadFrom(address, twi.rxBuffer, n);
      T.ReadsAreSafe(m, address, n, tr);
      twi.Interrupts(tr, T.Reading(m, address, n));
    }

    /**
     Reads up to `quantity` bytes (32 at most) and waits; `tr` are the interrupts until the wait ends. After a timeout
     the result of the previous transaction is announced, of bytes that were received before. So the number announced
     is the number received exactly when the transaction was completed, or when the previous result was 0.
     */
    method RequestFrom(address: byte, quantity: int, tr: seq<T.Status>) returns (read: byte)
      requires Valid() && T.BusFree(twi.Model()) && 1 <= quantity
      requires T.Legal(T.Reading(twi.Model().(callback := false), address, T.Min(quantity, T.TWI_BUFFER_LENGTH)), tr)
      modifies `rxBufferIndex, `rxBufferLength, twi, twi.masterBuffer, twi.rxBuffer
      ensures Valid() && rxBufferIndex == 0 && read == rxBufferLength == twi.result
      ensures old(twi.result) <= T.TWI_BUFFER_LENGTH ==> read <= T.TWI_BUFFER_LENGTH
      ensures !T.ReadEnded(tr) ==> read == old(twi.result) && twi.rxBuffer[..] == old(twi.rxBuffer[..])
      ensures twi.transmitting == old(twi.transmitting)
      ensures T.ReadEnded(tr) ==> twi.control == T.Ending(tr)
      ensures !T.ReadEnded(tr) ==> twi.control != T.Stop && twi.control != T.Release
      ensures (read == (if T.ReadEnded(tr) then |T.Received(tr)| else 0)) <==>
        T.ReadEnded(tr) || old(twi.result) == 0
      ensures T.ReadEnded(tr) ==>
        && T.BusFree(twi.Model())
        && read == |T.Received(tr)| == rxBufferLength && rxBufferIndex == 0
        && rxBufferLength <= T.TWI_BUFFER_LENGTH && Pending() == T.Received(tr)
        && (read == T.Min(quantity, T.TWI_BUFFER_LENGTH) <==> T.DataNacked(tr))
    {
      var n: byte := if quantity > T.TWI_BUFFER_LENGTH then T.TWI_BUFFER_LENGTH else quantity;
      ghost var m := twi.Model().(callback := false);
      Fetch(address, n, tr);
      T.ReadOutcome(m, address, n, tr);
      read := twi.result;
      rxBufferIndex := 0;
      rxBufferLength := read;
    }

    /** Takes the next received byte, or 0 if there is none. */
    method Receive() returns (value: byte)
      requires Valid() && rxBufferIndex <= rxBufferLength <= T.TWI_BUFFER_LENGTH
      modifies `rxBufferIndex
      ensures Valid() && rxBufferIndex <= rxBufferLength
      ensures if old(Pending()) == [] then value == 0 && Pending() == []
              else value == old(Pending())[0] && Pending() == old(Pending())[1..]
    {
      value := 0;
      if rxBufferIndex < rxBufferLength {
        value := twi.rxBuffer[rxBufferIndex];
        rxBufferIndex := rxBufferIndex + 1;
      }
    }

    /** The caller's usual loop: a completed request hands over exactly the bytes the slave sent. */
    method ReceiveAll() returns (bytes: seq<byte>)
      requires Valid() && rxBufferIndex <= rxBufferLength <= T.TWI_BUFFER_LENGTH
      modifies `rxBufferIndex
      ensures Valid() && rxBufferIndex == rxBufferLength && bytes == old(Pending())
    {
      bytes := [];
      while rxBufferLength - rxBufferIndex > 0
        invariant Valid() && rxBufferIndex <= rxBufferLength
        invariant bytes + Pending() == old(Pending())
      {
        ghost var before := Pending();
        var b := Receive();
        assert before == [b] + Pending();
        Joined(bytes, b, Pending());
        bytes := bytes + [b];
      }
    }
  }

  lemma Joined(s: seq<byte>, b: byte, t: seq<byte>)
    ensures s + ([b] + t) == (s + [b]) + t
  {
  }

  /** A request that times out behind a refused address announces two bytes, of which none has been received. */
  method StaleRequest(address: byte, quantity: int) returns (wire: Wire, read: byte)
    requires 1 <= quantity
    ensures wire.Valid() && wire.rxBufferIndex == 0 && read == wire.rxBufferLength == 2
    ensures |wire.Pending()| == 2 && T.Received([]) == []
  {
    wire := new Wire();
    wire.BeginTransmission(address);
    T.RefusalIsLegal(wire.twi.Model().(callback := false), address);
    var refused := wire.EndTransmission([T.Start, T.MtSlaNack]);
    assert refused == 2;
    read := wire.RequestFrom(address, quantity, []);
  }
}
