/**
 `GetCurrentFIFOPacket` of MPU6050.cpp: fetching the newest packet from the sensor's FIFO while the sensor goes on
 filling it.
 */
module Fifo {
  import opened Bytes
  import opened Multiples

  const CAPACITY: nat := 1024
  const WIRE_BUFFER: nat := 32

  /**
   The sensor and the clock. Before or after each access the sensor may append whole packets (`arrivals`, finitely
   many in all); when they do not fit, the oldest bytes are lost. `log` holds everything appended since the last
   reset and `taken` how much of it was read; `lost` counts the bytes that did not fit; `corrupt` says that the FIFO's
   content is arbitrary: it holds what was there before, or bytes were lost.
   */
  class Sensor {
    const packet: nat
    var fifo: seq<byte>
    var arrivals: seq<seq<byte>>
    var now: nat
    var steps: seq<nat>
    ghost var corrupt: bool
    ghost var log: seq<byte>
    ghost var taken: nat
    ghost var mark: nat  // |log| when the count was last read
    ghost var resets: nat
    ghost var lost: nat

    ghost predicate Valid()
      reads this
    {
      && 1 <= packet < 256 && |fifo| <= CAPACITY
      && (forall i :: 0 <= i < |arrivals| ==> Multiple(|arrivals[i]|, packet))
      && (!corrupt ==> taken <= |log| && fifo == log[taken..] && mark <= |log| && Multiple(|log|, packet))
    }

    /** The FIFO begins with a whole packet. */
    ghost predicate OnBoundary()
      reads this
    {
      Multiple(taken, packet)
    }

    method Produce()
      requires Valid()
      modifies `fifo, `arrivals, `log, `corrupt, `lost
      ensures Valid() && |fifo| >= |old(fifo)|
      ensures old(arrivals) != [] ==>
        var all := old(fifo) + old(arrivals)[0];
        var dropped := if |all| > CAPACITY then |all| - CAPACITY else 0;
        fifo == all[dropped..] && lost == old(lost) + dropped
      ensures if old(arrivals) == [] then arrivals == [] && fifo == old(fifo) else arrivals == old(arrivals)[1..]
      ensures old(corrupt) ==> corrupt
      ensures lost >= old(lost) && (lost == old(lost) ==> corrupt == old(corrupt))
      ensures !corrupt ==> old(log) <= log && fifo == old(fifo) + log[|old(log)|..]
    {
      if arrivals == [] {
        return;
      }
      var a := arrivals[0];
      arrivals := arrivals[1..];
      if !corrupt {
        MultipleAdd(|log|, |a|, packet);
        log := log + a;
      }
      fifo := fifo + a;
      if |fifo| > CAPACITY {
        lost := lost + (|fifo| - CAPACITY);
        fifo := fifo[|fifo| - CAPACITY..];
        corrupt := true;
      }
    }

    method GetFIFOCount() returns (count: nat)
      requires Valid()
      modifies `fifo, `arrivals, `log, `corrupt, `lost, `mark
      ensures Valid() && count == |fifo| && |fifo| >= |old(fifo)|
      ensures if old(arrivals) == [] then arrivals == [] && fifo == old(fifo) else arrivals == old(arrivals)[1..]
      ensures old(corrupt) ==> corrupt
      ensures lost >= old(lost) && (lost == old(lost) ==> corrupt == old(corrupt))
      ensures mark == |log| && (!corrupt ==> old(log) <= log)
    {
      Produce();
      mark := |log|;
      count := |fifo|;
    }

    method GetFIFOBytes(data: array<byte>, n: nat)
      requires Valid() && n <= |fifo| && n <= data.Length
      modifies `fifo, `arrivals, `log, `corrupt, `lost, `taken, data
      ensures Valid() && |fifo| >= |old(fifo)| - n && taken == old(taken) + n
      ensures if old(arrivals) == [] then arrivals == [] && fifo == old(fifo)[n..]
              else arrivals == old(arrivals)[1..]
      ensures data[..n] == old(fifo)[..n]
      ensures old(corrupt) ==> corrupt
      ensures lost >= old(lost) && (lost == old(lost) ==> corrupt == old(corrupt))
      ensures !corrupt ==> old(log) <= log
    {
      for i := 0 to n
        invariant data[..i] == fifo[..i]
        modifies data
      {
        data[i] := fifo[i];
      }
      fifo := fifo[n..];
      taken := taken + n;
      Produce();
    }

    method ResetFIFO()
      requires Valid()
      modifies `fifo, `log, `corrupt, `taken, `mark, `resets
      ensures Valid() && fifo == [] && !corrupt && log == [] && taken == 0 && OnBoundary() && resets == old(resets) + 1
    {
      MultipleOnce(packet);
      fifo := [];
      log, corrupt, taken, mark, resets := [], false, 0, 0, resets + 1;
    }

    /** The time moves on by at least a microsecond from one reading to the next. */
    method Micros() returns (t: nat)
      modifies `now, `steps
      ensures t == now > old(now)
    {
      var step := 1;
      if steps != [] {
        step := if steps[0] == 0 then 1 else steps[0];
        steps := steps[1..];
      }
      now := now + step;
      t := now;
    }

    /** One pass: everything counted except the last `packet` bytes is read and thrown away. */
    method Discard(count: nat)
      requires Valid() && packet < count <= |fifo|
      modifies `fifo, `arrivals, `log, `corrupt, `lost, `taken
      ensures Valid() && |fifo| >= packet && taken == old(taken) + (count - packet)
      ensures |arrivals| <= |old(arrivals)|
      ensures |arrivals| == |old(arrivals)| ==> arrivals == [] && fifo == old(fifo)[count - packet..]
      ensures old(corrupt) ==> corrupt
      ensures lost >= old(lost) && (lost == old(lost) ==> corrupt == old(corrupt))
      ensures !corrupt ==> old(log) <= log
    {
      var trash := new byte[WIRE_BUFFER];
      var fifoC := count - packet;
      while fifoC != 0
        invariant Valid() && 0 <= fifoC <= count - packet && |fifo| >= fifoC + packet
        invariant taken == old(taken) + (count - packet - fifoC)
        invariant |arrivals| <= |old(arrivals)|
        invariant |arrivals| == |old(arrivals)| ==>
          (fifoC == count - packet || arrivals == []) && arrivals == old(arrivals)
        invariant |arrivals| == |old(arrivals)| ==> fifo == old(fifo)[count - packet - fifoC..]
        invariant old(corrupt) ==> corrupt
        invariant lost >= old(lost) && (lost == old(lost) ==> corrupt == old(corrupt))
        invariant !corrupt ==> old(log) <= log
      {
        var removeBytes := if fifoC < WIRE_BUFFER then fifoC else WIRE_BUFFER;
        GetFIFOBytes(trash, removeBytes);
        fifoC := fifoC - removeBytes;
      }
    }

    /** Discards until one packet is left at the moment of counting. */
    method Drain() returns (fifoC: nat)
      requires Valid() && (!corrupt ==> OnBoundary()) && packet <= |fifo|
      modifies `fifo, `arrivals, `log, `corrupt, `lost, `taken, `mark
      ensures Valid() && fifoC == |fifo| == packet
      ensures old(corrupt) ==> corrupt
      ensures lost >= old(lost) && (lost == old(lost) ==> corrupt == old(corrupt))
      ensures !corrupt ==> OnBoundary() && mark == |log| && taken + packet == mark
      ensures old(arrivals) == [] ==> arrivals == [] && fifo == old(fifo)[|old(fifo)| - packet..]
    {
      fifoC := GetFIFOCount();
      while fifoC > packet
        invariant Valid() && fifoC == |fifo| && packet <= fifoC
        invariant old(corrupt) ==> corrupt
        invariant lost >= old(lost) && (lost == old(lost) ==> corrupt == old(corrupt))
        invariant !corrupt ==> OnBoundary() && mark == |log|
        invariant old(arrivals) == [] ==>
          arrivals == [] && fifoC <= |old(fifo)| && fifo == old(fifo)[|old(fifo)| - fifoC..]
        decreases |arrivals|, |fifo|
      {
        ghost var taken0 := taken;
        if !corrupt {
          MultipleSub(|log|, taken, packet);
          MultipleOnce(packet);
          MultipleSub(fifoC, packet, packet);
          MultipleAdd(taken, fifoC - packet, packet);
        }
        Discard(fifoC);
        fifoC := GetFIFOCount();
      }
    }

    /** Empties the FIFO and waits for something to arrive, until the timeout. */
    method ResetAndWait(breakTimer: nat, timeout: nat) returns (fifoC: nat)
      requires Valid() && now >= breakTimer
      modifies `fifo, `arrivals, `log, `corrupt, `lost, `taken, `mark, `resets, `now, `steps
      ensures Valid() && fifoC == |fifo| && now >= old(now) && resets > old(resets)
      ensures lost >= old(lost) && (lost == old(lost) ==> !corrupt)
      ensures !corrupt ==> OnBoundary() && mark == |log|
      ensures fifoC == 0 ==> now > breakTimer + timeout
      ensures old(arrivals) == [] ==> fifoC == 0
    {
      ResetFIFO();
      fifoC := GetFIFOCount();
      while fifoC == 0
        invariant Valid() && fifoC == |fifo| && now >= old(now) && resets > old(resets)
        invariant old(arrivals) == [] ==> arrivals == [] && fifoC == 0
        invariant lost >= old(lost) && (lost == old(lost) ==> !corrupt)
        invariant !corrupt ==> OnBoundary() && mark == |log|
        decreases if now > breakTimer + timeout then 0 else breakTimer + timeout - now + 1
      {
        var t := Micros();
        if t - breakTimer > timeout {
          break;
        }
        fifoC := GetFIFOCount();
      }
    }

    /** One turn of the main loop up to the tests: the count it ends with. */
    method Approach(breakTimer: nat, timeout: nat) returns (fifoC: nat)
      requires Valid() && now >= breakTimer && (!corrupt ==> OnBoundary())
      modifies `fifo, `arrivals, `log, `corrupt, `lost, `taken, `mark, `resets, `now, `steps
      ensures Valid() && fifoC == |fifo| && now >= old(now) && resets >= old(resets)
      ensures |old(fifo)| > 200 && |old(fifo)| > packet ==> resets > old(resets)
      ensures lost >= old(lost) && (lost == old(lost) && corrupt ==> old(corrupt) && resets == old(resets))
      ensures !corrupt ==> OnBoundary() && mark == |log|
      ensures fifoC == 0 ==> now > breakTimer + timeout || (old(fifo) == [] && resets == old(resets))
      ensures resets == old(resets) && !corrupt && old(fifo) != [] ==> fifoC == packet
      ensures resets == old(resets) && old(corrupt) ==> corrupt
      ensures old(arrivals) == [] && |old(fifo)| <= packet ==>
        arrivals == [] && fifo == old(fifo) && resets == old(resets)
      ensures old(arrivals) == [] && packet < |old(fifo)| <= 200 ==>
        arrivals == [] && fifo == old(fifo)[|old(fifo)| - packet..] && resets == old(resets)
      ensures old(arrivals) == [] && |old(fifo)| > 200 && |old(fifo)| > packet ==> fifoC == 0
    {
      fifoC := GetFIFOCount();
      if !corrupt && fifoC > 0 {
        MultipleSub(|log|, taken, packet);
        OneLess(fifoC, packet);
      }
      if fifoC > packet {
        if fifoC > 200 {
          fifoC := ResetAndWait(breakTimer, timeout);
        } else {
          fifoC := Drain();
        }
      }
    }

    /** What is asked of a sensor before a packet is fetched, and found again afterwards. */
    ghost predicate Ready()
      reads this
    {
      Valid() && (!corrupt ==> OnBoundary())
    }

    /**
     Fetches the newest packet: 1 and the packet, or 0. A 0 means that the time is up, or that nothing was there at the
     first count; a sound FIFO that is not empty and is not reset always gives a 1. While nothing arrives, it is a 1
     exactly for one packet, or for more of at most 200 bytes, and the last one is what is fetched. A FIFO that held
     more than 200 bytes (and more than a packet) is reset first. Unless the content is corrupt in the end, a 1 comes
     with one whole packet, the newest one at the last count read, and the FIFO is left on a boundary. When nothing is
     lost during the call, the content is not corrupt in the end if it was not at the start or if it was reset.
     */
    method GetCurrentFIFOPacket(data: array<byte>, timeout: nat) returns (result: int)
      requires Ready() && packet <= data.Length
      modifies this, data
      ensures Ready() && (result == 0 || result == 1)
      ensures |old(fifo)| > 200 && |old(fifo)| > packet ==> resets > old(resets)
      ensures lost >= old(lost)
      ensures lost == old(lost) && (!old(corrupt) || (|old(fifo)| > 200 && |old(fifo)| > packet)) ==> !corrupt
      ensures result == 1 && !corrupt ==>
        && packet <= taken == mark <= |log|
        && data[..packet] == log[taken - packet..taken]
      ensures result == 0 ==> now > old(now) + timeout || (old(fifo) == [] && resets == old(resets))
      ensures lost == old(lost) && !old(corrupt) && old(fifo) != [] && resets == old(resets) ==> result == 1
      ensures old(arrivals) == [] ==>
        && (result == 1 <==> |old(fifo)| == packet || packet < |old(fifo)| <= 200)
        && (result == 1 ==>
              && data[..packet] == old(fifo)[|old(fifo)| - packet..]
              && fifo == [] && resets == old(resets))
    {
      var breakTimer := Micros();
      var packetReceived := false;
      ghost var first := true;
      while !packetReceived
        invariant Ready() && now >= breakTimer && resets >= old(resets)
        invariant packetReceived ==> packet == |fifo| && (!corrupt ==> mark == |log| == taken + packet)
        invariant lost >= old(lost) && (lost == old(lost) && corrupt ==> old(corrupt) && resets == old(resets))
        invariant first ==> fifo == old(fifo) && arrivals == old(arrivals) && resets == old(resets) && !packetReceived
        invariant !first ==> fifo != []
        invariant lost == old(lost) && !old(corrupt) && old(fifo) != [] && resets == old(resets) ==>
          first || packetReceived
        invariant breakTimer > old(now)
        invariant old(arrivals) == [] ==> arrivals == [] && resets == old(resets)
        invariant old(arrivals) == [] && packetReceived ==>
          && (|old(fifo)| == packet || packet < |old(fifo)| <= 200)
          && fifo == old(fifo)[|old(fifo)| - packet..]
        invariant old(arrivals) == [] && !packetReceived && !first ==> |old(fifo)| < packet && fifo == old(fifo)
        invariant !first && |old(fifo)| > 200 && |old(fifo)| > packet ==> resets > old(resets)
        decreases !packetReceived, if now > breakTimer + timeout then 0 else breakTimer + timeout - now + 1
      {
        var fifoC := Approach(breakTimer, timeout);
        first := false;
        if fifoC == 0 {
          return 0;
        }
        packetReceived := fifoC == packet;
        if !packetReceived {
          var t := Micros();
          if t - breakTimer > timeout {
            return 0;
          }
        }
      }
      TakePacket(data);
      result := 1;
    }

    /** Reads the one packet that was counted. */
    method TakePacket(data: array<byte>)
      requires Ready() && |fifo| == packet <= data.Length
      requires !corrupt ==> mark == |log| == taken + packet
      modifies `fifo, `arrivals, `log, `corrupt, `lost, `taken, data
      ensures Ready() && lost >= old(lost) && (lost == old(lost) ==> corrupt == old(corrupt))
      ensures !corrupt ==> packet <= taken == mark <= |log| && data[..packet] == log[taken - packet..taken]
      ensures data[..packet] == old(fifo)
      ensures old(arrivals) == [] ==> fifo == []
    {
      MultipleOnce(packet);
      ghost var log0 := log;
      if !corrupt {
        MultipleAdd(taken, packet, packet);
        assert log0[taken..taken + packet] == fifo;
      }
      GetFIFOBytes(data, packet);
      if !corrupt {
        assert log0 == log[..|log0|];
      }
    }
  }
}
