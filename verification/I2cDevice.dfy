/**
 The register access of I2Cdev.cpp over the Arduino Wire library: `readBytes` with its chunks, and the bit fields that
 `readBits` and `writeBits` read and write. The slave increments its register pointer, except at the FIFO register.
 */
module I2cDevice {
  import opened Multiples

  const FIFO_R_W: nat := 0x74

  class Slave {
    var regs: seq<bv8>
    var fifo: seq<bv8>
    var pointer: nat

    ghost predicate Valid()
      reads this
    {
      |regs| == 256 && pointer < 256
    }

    constructor (regs: seq<bv8>, fifo: seq<bv8>)
      requires |regs| == 256
      ensures Valid() && this.regs == regs && this.fifo == fifo
    {
      this.regs, this.fifo, pointer := regs, fifo, 0;
    }

    /** A transmission of the register address alone. */
    method Select(reg: nat)
      requires Valid() && reg < 256
      modifies `pointer
      ensures Valid() && pointer == reg
    {
      pointer := reg;
    }

    /** `requestFrom` for n bytes. */
    method Request(n: nat) returns (bytes: seq<bv8>)
      requires Valid() && (pointer == FIFO_R_W ==> n <= |fifo|)
      modifies `pointer, `fifo
      ensures Valid() && |bytes| == n
      ensures old(pointer) == FIFO_R_W ==> bytes == old(fifo)[..n] && fifo == old(fifo)[n..]
      ensures old(pointer) != FIFO_R_W ==>
        (forall j :: 0 <= j < n ==> bytes[j] == regs[(old(pointer) + j) % 256]) && fifo == old(fifo)
    {
      if pointer == FIFO_R_W {
        bytes := fifo[..n];
        fifo := fifo[n..];
      } else {
        bytes := seq(n, j requires j >= 0 && |regs| == 256 reads this => regs[(pointer + j) % 256]);
        pointer := (pointer + n) % 256;
      }
    }

    /** `writeByte`, which changes nothing if the slave does not acknowledge. */
    method WriteByte(reg: nat, value: bv8, acknowledged: bool) returns (ok: bool)
      requires Valid() && reg < 256
      modifies `regs, `pointer
      ensures Valid() && (ok <==> acknowledged)
      ensures regs == if acknowledged then old(regs)[reg := value] else old(regs)
    {
      ok := acknowledged;
      if acknowledged {
        regs := regs[reg := value];
        pointer := (reg + 1) % 256;
      }
    }
  }

  /** How a request is answered: the bytes the slave gives, and how many of them are copied before the time is up. */
  datatype Answer = Answer(given: nat, copied: nat)

  function Min(x: nat, y: nat): nat {
    if x < y then x else y
  }

  /** The next answer to a request for n bytes; once the list has ended, requests are answered in full. */
  function AnswerTo(answers: seq<Answer>, n: nat): (a: Answer)
    ensures a.copied <= a.given <= n
  {
    if answers == [] then Answer(n, n)
    else
      var given := Min(answers[0].given, n);
      Answer(given, Min(answers[0].copied, given))
  }

  function Later(answers: seq<Answer>): seq<Answer> {
    if answers == [] then [] else answers[1..]
  }

  /** What the read has in its data from chunk position k on, and what is then left in the FIFO. */
  function Received(regs: seq<bv8>, fifo: seq<bv8>, reg: nat, length: nat, buffer: nat, k: nat, answers: seq<Answer>)
    : (r: (seq<bv8>, seq<bv8>))
    requires |regs| == 256 && buffer > 0 && (reg == FIFO_R_W && k < length ==> length - k <= |fifo|)
    ensures k < length ==> |r.0| <= length - k
    ensures length <= k ==> r == ([], fifo)
    ensures reg != FIFO_R_W ==> r.1 == fifo
    decreases length - k
  {
    if length <= k then ([], fifo)
    else
      var a := AnswerTo(answers, Min(length - k, buffer));
      var part := if reg == FIFO_R_W then fifo[..a.copied]
                  else seq(a.copied, j requires 0 <= j => regs[(reg + j) % 256]);
      var rest := Received(regs, if reg == FIFO_R_W then fifo[a.given..] else fifo, reg, length, buffer,
                           k + Min(length, buffer), Later(answers));
      (part + rest.0, rest.1)
  }

  /** The bytes that reading `length` bytes from `reg` in chunks of `buffer` gives. */
  function Delivered(regs: seq<bv8>, fifo: seq<bv8>, reg: nat, length: nat, buffer: nat): (r: seq<bv8>)
    requires |regs| == 256 && buffer > 0 && (reg == FIFO_R_W ==> length <= |fifo|)
    ensures |r| == length
  {
    if reg == FIFO_R_W then fifo[..length]
    else seq(length, j requires 0 <= j => regs[(reg + j % buffer) % 256])
  }

  /** `uint8_t` returned as `int8_t` */
  function Int8(count: nat): (r: int)
    requires count < 256
    ensures -128 <= r < 128 && (r - count) % 256 == 0
  {
    if count < 128 then count else count - 256
  }

  /** One chunk of it. */
  lemma ReceivedStep(regs: seq<bv8>, fifo: seq<bv8>, reg: nat, length: nat, buffer: nat, k: nat, answers: seq<Answer>,
                     bytes: seq<bv8>)
    requires |regs| == 256 && buffer > 0 && k < length && (reg == FIFO_R_W ==> length - k <= |fifo|)
    requires |bytes| == AnswerTo(answers, Min(length - k, buffer)).copied
    requires reg == FIFO_R_W ==> bytes == fifo[..|bytes|]
    requires reg != FIFO_R_W ==> forall j :: 0 <= j < |bytes| ==> bytes[j] == regs[(reg + j) % 256]
    ensures var given, k' := AnswerTo(answers, Min(length - k, buffer)).given, k + Min(length, buffer);
      var fifo' := if reg == FIFO_R_W then fifo[given..] else fifo;
      && (reg == FIFO_R_W && k' < length ==> length - k' <= |fifo'|)
      && var rest := Received(regs, fifo', reg, length, buffer, k', Later(answers));
         Received(regs, fifo, reg, length, buffer, k, answers) == (bytes + rest.0, rest.1)
  {
    hide AnswerTo;
    if reg != FIFO_R_W {
      assert bytes == seq(|bytes|, j requires 0 <= j => regs[(reg + j) % 256]);
    }
  }

  /** Copies what has been received behind the first `count` bytes of data. */
  method Receive(bytes: seq<bv8>, data: array<bv8>, count: nat)
    requires count + |bytes| <= data.Length
    modifies data
    ensures data[..count + |bytes|] == old(data[..count]) + bytes
    ensures forall j :: count + |bytes| <= j < data.Length ==> data[j] == old(data[j])
  {
    for i := 0 to |bytes|
      invariant data[..count + i] == old(data[..count]) + bytes[..i]
      invariant forall j :: count + i <= j < data.Length ==> data[j] == old(data[j])
    {
      data[count + i] := bytes[i];
    }
  }

  /** One chunk: selects the register, asks for n bytes and copies what comes, until the time is up. */
  method ReadChunk(slave: Slave, reg: nat, n: nat, data: array<bv8>, count: nat, answers: seq<Answer>)
    returns (copied: nat, ghost bytes: seq<bv8>)
    requires slave.Valid() && reg < 256 && count + n <= data.Length
    requires reg == FIFO_R_W ==> n <= |slave.fifo|
    modifies slave`pointer, slave`fifo, data
    ensures slave.Valid() && |bytes| == copied == AnswerTo(answers, n).copied
    ensures reg == FIFO_R_W ==> bytes == old(slave.fifo)[..copied]
    ensures reg == FIFO_R_W ==> slave.fifo == old(slave.fifo)[AnswerTo(answers, n).given..]
    ensures reg != FIFO_R_W ==>
      (forall j :: 0 <= j < copied ==> bytes[j] == slave.regs[(reg + j) % 256]) && slave.fifo == old(slave.fifo)
    ensures data[..count + copied] == old(data[..count]) + bytes
    ensures forall j :: count + copied <= j < data.Length ==> data[j] == old(data[j])
  {
    var a := AnswerTo(answers, n);
    slave.Select(reg);
    var received := slave.Request(a.given);
    Receive(received[..a.copied], data, count);
    copied, bytes := a.copied, received[..a.copied];
  }

  lemma Regrouped(a: seq<bv8>, b: seq<bv8>, c: seq<bv8>)
    ensures a + (b + c) == (a + b) + c
  {
  }

  /**
   `readBytes`; `buffer` is I2CDEVLIB_WIRE_BUFFER_LENGTH, and `late` says that the time is up in the end. What is
   missing in one chunk is not left open in the data: the next chunk is put right behind what has come.
   */
  method ReadBytes(slave: Slave, reg: nat, length: nat, data: array<bv8>, buffer: nat, answers: seq<Answer>, late: bool)
    returns (r: int)
    requires slave.Valid() && reg < 256 && length < 256 && length <= data.Length && 0 < buffer
    requires reg == FIFO_R_W ==> length <= |slave.fifo|
    modifies slave`pointer, slave`fifo, data
    ensures slave.Valid()
    ensures var all := Received(slave.regs, old(slave.fifo), reg, length, buffer, 0, answers);
      && r == Int8(if late && |all.0| < length then 255 else |all.0|)
      && data[..|all.0|] == all.0 && slave.fifo == all.1
      && forall j :: |all.0| <= j < data.Length ==> data[j] == old(data[j])
  {
    hide Int8, AnswerTo, Later, Received;
    var count: nat, k: nat, left := 0, 0, answers;
    ghost var all := Received(slave.regs, slave.fifo, reg, length, buffer, 0, answers);
    while k < length
      invariant slave.Valid() && count <= length && (k < length ==> count <= k)
      invariant k < length && reg == FIFO_R_W ==> length - k <= |slave.fifo|
      invariant var rest := Received(slave.regs, slave.fifo, reg, length, buffer, k, left);
        data[..count] + rest.0 == all.0 && rest.1 == all.1
      invariant forall j :: count <= j < data.Length ==> data[j] == old(data[j])
      decreases length - k
    {
      ghost var before, fifo := data[..count], slave.fifo;
      var n := Min(length - k, buffer);
      var copied: nat, bytes := ReadChunk(slave, reg, n, data, count, left);
      ReceivedStep(slave.regs, fifo, reg, length, buffer, k, left, bytes);
      k := k + Min(length, buffer);
      left := Later(left);
      Regrouped(before, bytes, Received(slave.regs, slave.fifo, reg, length, buffer, k, left).0);
      count := count + copied;
    }
    assert all.0 == data[..count];
    if late && count < length {
      count := 255;
    }
    r := Int8(count);
  }

  /** What a request in the middle of a read gets is the next part of what the read delivers. */
  lemma ChunkDelivered(regs: seq<bv8>, fifo: seq<bv8>, reg: nat, length: nat, buffer: nat, q: nat, k: nat, n: nat,
                       bytes: seq<bv8>)
    requires |regs| == 256 && buffer > 0 && reg < 256 && (reg == FIFO_R_W ==> length <= |fifo|)
    requires k == q * buffer && n <= buffer && k + n <= length && |bytes| == n
    requires reg == FIFO_R_W ==> bytes == fifo[k..][..n]
    requires reg != FIFO_R_W ==> forall j :: 0 <= j < n ==> bytes[j] == regs[(reg + j) % 256]
    ensures Delivered(regs, fifo, reg, length, buffer)[k..k + n] == bytes
  {
    if reg != FIFO_R_W {
      hide *;
      var part := Delivered(regs, fifo, reg, length, buffer)[k..k + n];
      forall j | 0 <= j < n
        ensures part[j] == bytes[j]
      {
        DeliveredAt(regs, fifo, reg, length, buffer, q, j);
      }
      assert part == bytes;
    }
  }

  lemma DeliveredAt(regs: seq<bv8>, fifo: seq<bv8>, reg: nat, length: nat, buffer: nat, q: nat, j: nat)
    requires |regs| == 256 && j < buffer && q * buffer + j < length && reg != FIFO_R_W
    ensures Delivered(regs, fifo, reg, length, buffer)[q * buffer + j] == regs[(reg + j) % 256]
  {
    var i := q * buffer + j;
    DeliveredFrom(regs, fifo, reg, length, buffer, i);
    hide *;
    DivUnique(i, q, j, buffer);
  }

  lemma DeliveredFrom(regs: seq<bv8>, fifo: seq<bv8>, reg: nat, length: nat, buffer: nat, i: nat)
    requires |regs| == 256 && buffer > 0 && i < length && reg != FIFO_R_W
    ensures Delivered(regs, fifo, reg, length, buffer)[i] == regs[(reg + i % buffer) % 256]
  {
  }

  /** Requests that are all answered in full deliver everything; `now` is what the first k bytes have left. */
  lemma {:induction false} FullFrom(regs: seq<bv8>, fifo: seq<bv8>, reg: nat, length: nat, buffer: nat, q: nat, k: nat,
                                    now: seq<bv8>)
    requires |regs| == 256 && buffer > 0 && reg < 256 && (reg == FIFO_R_W ==> length <= |fifo|)
    requires k == q * buffer <= length && now == if reg == FIFO_R_W then fifo[k..] else fifo
    ensures Received(regs, now, reg, length, buffer, k, []).0 == Delivered(regs, fifo, reg, length, buffer)[k..]
    ensures Received(regs, now, reg, length, buffer, k, []).1 == if reg == FIFO_R_W then fifo[length..] else fifo
    decreases length - k
  {
    hide Received;
    if k < length {
      var n, all := Min(length - k, buffer), Delivered(regs, fifo, reg, length, buffer);
      var part := if reg == FIFO_R_W then now[..n] else seq(n, j requires 0 <= j => regs[(reg + j) % 256]);
      ChunkDelivered(regs, fifo, reg, length, buffer, q, k, n, part);
      ReceivedStep(regs, now, reg, length, buffer, k, [], part);
      hide Delivered;
      Rejoined(all, k, n, part);
      var next := if reg == FIFO_R_W then now[n..] else now;
      if k + buffer <= length {
        assert k + buffer == (q + 1) * buffer;
        FullFrom(regs, fifo, reg, length, buffer, q + 1, k + buffer, next);
      } else {
        assert k + n == length;
      }
    }
  }

  lemma Rejoined(all: seq<bv8>, k: nat, n: nat, part: seq<bv8>)
    requires k + n <= |all| && all[k..k + n] == part
    ensures all[k..] == part + all[k + n..]
  {
  }

  lemma FullRead(regs: seq<bv8>, fifo: seq<bv8>, reg: nat, length: nat, buffer: nat)
    requires |regs| == 256 && buffer > 0 && reg < 256 && (reg == FIFO_R_W ==> length <= |fifo|)
    ensures Received(regs, fifo, reg, length, buffer, 0, [])
      == (Delivered(regs, fifo, reg, length, buffer), if reg == FIFO_R_W then fifo[length..] else fifo)
  {
    assert fifo[0..] == fifo;
    FullFrom(regs, fifo, reg, length, buffer, 0, 0, fifo);
  }

  /** Every request from chunk position k on is answered with all the bytes asked for, and they are copied in time. */
  predicate AllAnswered(length: nat, buffer: nat, k: nat, answers: seq<Answer>)
    requires buffer > 0
    decreases length - k
  {
    k < length ==>
      var n := Min(length - k, buffer);
      AnswerTo(answers, n) == Answer(n, n) && AllAnswered(length, buffer, k + Min(length, buffer), Later(answers))
  }

  lemma {:induction false} AnsweredFrom(regs: seq<bv8>, fifo: seq<bv8>, reg: nat, length: nat, buffer: nat, k: nat,
                                        answers: seq<Answer>)
    requires |regs| == 256 && buffer > 0 && (reg == FIFO_R_W && k < length ==> length - k <= |fifo|)
    ensures var all := Received(regs, fifo, reg, length, buffer, k, answers);
      && (|all.0| == (if k < length then length - k else 0) <==> AllAnswered(length, buffer, k, answers))
      && (AllAnswered(length, buffer, k, answers) ==> all == Received(regs, fifo, reg, length, buffer, k, []))
    decreases length - k
  {
    if k < length {
      var a := AnswerTo(answers, Min(length - k, buffer));
      AnsweredFrom(regs, if reg == FIFO_R_W then fifo[a.given..] else fifo, reg, length, buffer,
                   k + Min(length, buffer), Later(answers));
    }
  }

  /**
   The count tells: it is the length exactly when every request has been answered in full, and the data is then what
   such a read delivers.
   */
  lemma CountExact(regs: seq<bv8>, fifo: seq<bv8>, reg: nat, length: nat, buffer: nat, answers: seq<Answer>)
    requires |regs| == 256 && buffer > 0 && reg < 256 && (reg == FIFO_R_W ==> length <= |fifo|)
    ensures var all := Received(regs, fifo, reg, length, buffer, 0, answers);
      && (|all.0| == length <==> AllAnswered(length, buffer, 0, answers))
      && (|all.0| == length ==> all.0 == Delivered(regs, fifo, reg, length, buffer))
  {
    AnsweredFrom(regs, fifo, reg, length, buffer, 0, answers);
    FullRead(regs, fifo, reg, length, buffer);
  }

  /** Every chunk that copies something begins in the data at a multiple of `buffer`; the next one begins at `count`. */
  predicate Aligned(length: nat, buffer: nat, k: nat, count: nat, answers: seq<Answer>)
    requires buffer > 0
    decreases length - k
  {
    k < length ==>
      var a := AnswerTo(answers, Min(length - k, buffer));
      && (a.copied > 0 ==> count % buffer == 0)
      && Aligned(length, buffer, k + Min(length, buffer), count + a.copied, Later(answers))
  }

  /** The registers that a chunk of n bytes copies. */
  function ChunkOf(regs: seq<bv8>, reg: nat, n: nat): (r: seq<bv8>)
    requires |regs| == 256
    ensures |r| == n
  {
    seq(n, j requires 0 <= j => regs[(reg + j) % 256])
  }

  lemma ChunkAt(regs: seq<bv8>, reg: nat, n: nat, j: nat)
    requires |regs| == 256 && j < n
    ensures ChunkOf(regs, reg, n)[j] == regs[(reg + j) % 256]
  {
  }

  /** One chunk of registers. */
  lemma ChunkStep(regs: seq<bv8>, reg: nat, length: nat, buffer: nat, k: nat, answers: seq<Answer>)
    requires |regs| == 256 && reg != FIFO_R_W && buffer > 0 && k < length
    ensures var a, k' := AnswerTo(answers, Min(length - k, buffer)), k + Min(length, buffer);
      Received(regs, [], reg, length, buffer, k, answers).0
      == ChunkOf(regs, reg, a.copied) + Received(regs, [], reg, length, buffer, k', Later(answers)).0
  {
    var bytes := ChunkOf(regs, reg, AnswerTo(answers, Min(length - k, buffer)).copied);
    ReceivedStep(regs, [], reg, length, buffer, k, answers, bytes);
    hide Received;
  }

  /** A chunk is what a full read has from a multiple of `buffer` on. */
  lemma ChunkInPlace(regs: seq<bv8>, reg: nat, length: nat, buffer: nat, count: nat, n: nat)
    requires |regs| == 256 && reg != FIFO_R_W && n <= buffer && count + n <= length && 0 < buffer
    requires n > 0 ==> count % buffer == 0
    ensures ChunkOf(regs, reg, n) == Delivered(regs, [], reg, length, buffer)[count..count + n]
  {
    hide ChunkOf, Delivered;
    var chunk, all := ChunkOf(regs, reg, n), Delivered(regs, [], reg, length, buffer);
    forall j | 0 <= j < n
      ensures chunk[j] == all[count + j]
    {
      ChunkAt(regs, reg, n, j);
      DeliveredFrom(regs, [], reg, length, buffer, count + j);
      RestOfSum(count, j, buffer);
    }
  }

  lemma RestOfSum(count: nat, j: nat, buffer: nat)
    requires j < buffer && count % buffer == 0
    ensures (count + j) % buffer == j
  {
    DivUnique(count + j, count / buffer, j, buffer);
  }

  lemma {:induction false} AlignedFrom(regs: seq<bv8>, reg: nat, length: nat, buffer: nat, k: nat, count: nat,
                                       answers: seq<Answer>)
    requires |regs| == 256 && reg != FIFO_R_W && buffer > 0 && count <= k && count <= length
    requires Aligned(length, buffer, k, count, answers)
    ensures var r := Received(regs, [], reg, length, buffer, k, answers).0;
      count + |r| <= length && r == Delivered(regs, [], reg, length, buffer)[count..count + |r|]
    decreases length - k
  {
    hide Received, Delivered, ChunkOf, AnswerTo, Later;
    if k < length {
      var n, k' := AnswerTo(answers, Min(length - k, buffer)).copied, k + Min(length, buffer);
      var all := Delivered(regs, [], reg, length, buffer);
      ChunkStep(regs, reg, length, buffer, k, answers);
      ChunkInPlace(regs, reg, length, buffer, count, n);
      AlignedFrom(regs, reg, length, buffer, k', count + n, Later(answers));
      var rest := Received(regs, [], reg, length, buffer, k', Later(answers)).0;
      RejoinedPart(all, count, n, |rest|, ChunkOf(regs, reg, n), rest);
    }
  }

  lemma RejoinedPart(all: seq<bv8>, i: nat, m: nat, n: nat, a: seq<bv8>, b: seq<bv8>)
    requires i + m + n <= |all| && a == all[i..i + m] && b == all[i + m..i + m + n]
    ensures |a + b| == m + n && a + b == all[i..i + |a + b|]
  {
  }

  /** Registers that show where the first one is copied to. */
  function Mark(reg: nat): (regs: seq<bv8>)
    ensures |regs| == 256 && forall j :: 0 <= j < 256 ==> regs[j] == if j == reg then 1 else 0
  {
    seq(256, i => if i == reg then 1 else 0)
  }

  lemma MarkMoved(reg: nat, length: nat, buffer: nat, count: nat, n: nat)
    requires reg < 256 && reg != FIFO_R_W && 0 < buffer && 0 < n && count < length < 256 && count % buffer != 0
    ensures ChunkOf(Mark(reg), reg, n)[0] == 1
    ensures Delivered(Mark(reg), [], reg, length, buffer)[count] == 0
  {
    hide ChunkOf, Delivered, Mark;
    ChunkAt(Mark(reg), reg, n, 0);
    DeliveredFrom(Mark(reg), [], reg, length, buffer, count);
    RestBound(count, buffer);
    OtherRegister(reg, count % buffer);
  }

  lemma RestBound(count: nat, buffer: nat)
    requires buffer > 0
    ensures count % buffer <= count
  {
  }

  lemma OtherRegister(reg: nat, m: nat)
    requires reg < 256 && m < 256
    ensures (reg + m) % 256 < 256 && ((reg + m) % 256 == reg <==> m == 0)
  {
  }

  lemma {:induction false} Misplaced(reg: nat, length: nat, buffer: nat, k: nat, count: nat, answers: seq<Answer>)
    returns (i: nat)
    requires reg < 256 && reg != FIFO_R_W && length < 256 && buffer > 0 && count <= k && count <= length
    requires !Aligned(length, buffer, k, count, answers)
    ensures var r := Received(Mark(reg), [], reg, length, buffer, k, answers).0;
      i < |r| && count + i < length && r[i] != Delivered(Mark(reg), [], reg, length, buffer)[count + i]
    decreases length - k
  {
    hide Received, Delivered, ChunkOf, Mark, AnswerTo, Later;
    var n := AnswerTo(answers, Min(length - k, buffer)).copied;
    ChunkStep(Mark(reg), reg, length, buffer, k, answers);
    if n > 0 && count % buffer != 0 {
      MarkMoved(reg, length, buffer, count, n);
      i := 0;
    } else {
      var j := Misplaced(reg, length, buffer, k + Min(length, buffer), count + n, Later(answers));
      i := n + j;
    }
  }

  /**
   Main result on short reads of registers: what is read is the beginning of what should be, whatever the registers
   hold, exactly when every chunk that copies something begins in the data at a multiple of `buffer`.
   */
  lemma PrefixExact(reg: nat, length: nat, buffer: nat, answers: seq<Answer>)
    requires reg < 256 && reg != FIFO_R_W && length < 256 && buffer > 0
    ensures Aligned(length, buffer, 0, 0, answers) <==>
      forall regs: seq<bv8> | |regs| == 256 ::
        Received(regs, [], reg, length, buffer, 0, answers).0 <= Delivered(regs, [], reg, length, buffer)
  {
    if Aligned(length, buffer, 0, 0, answers) {
      forall regs: seq<bv8> | |regs| == 256
        ensures Received(regs, [], reg, length, buffer, 0, answers).0 <= Delivered(regs, [], reg, length, buffer)
      {
        AlignedFrom(regs, reg, length, buffer, 0, 0, answers);
      }
    } else {
      var i := Misplaced(reg, length, buffer, 0, 0, answers);
      var regs := Mark(reg);
      var r, all := Received(regs, [], reg, length, buffer, 0, answers).0, Delivered(regs, [], reg, length, buffer);
      assert r[i] != all[0 + i];
    }
  }

  /** Such a read: the second chunk comes one byte too early. Behind a first chunk that gives nothing it would not. */
  lemma ShortChunk(regs: seq<bv8>, reg: nat)
    requires |regs| == 256 && reg < 256 && reg != FIFO_R_W
    ensures Received(regs, [], reg, 4, 2, 0, [Answer(1, 1)]).0 == [regs[reg], regs[reg], regs[(reg + 1) % 256]]
    ensures !Aligned(4, 2, 0, 0, [Answer(1, 1)]) && Aligned(4, 2, 0, 0, [Answer(0, 0)])
  {
    var one := [Answer(1, 1)];
    assert Later(one) == [] && Later([Answer(0, 0)]) == [];
    ReceivedStep(regs, [], reg, 4, 2, 0, one, [regs[reg]]);
    ReceivedStep(regs, [], reg, 4, 2, 2, [], [regs[reg], regs[(reg + 1) % 256]]);
    assert !Aligned(4, 2, 2, 1, []);
    assert Aligned(4, 2, 2, 0, []);
  }

  /** No byte that the FIFO has given is missing in the data when a later one is copied. */
  predicate NoneLost(length: nat, buffer: nat, k: nat, count: nat, given: nat, answers: seq<Answer>)
    requires buffer > 0
    decreases length - k
  {
    k < length ==>
      var a := AnswerTo(answers, Min(length - k, buffer));
      && (a.copied > 0 ==> count == given)
      && NoneLost(length, buffer, k + Min(length, buffer), count + a.copied, given + a.given, Later(answers))
  }

  /** What n bytes of the FIFO are, from one of them on. */
  function Span(fifo: seq<bv8>, from: nat, n: nat): (r: seq<bv8>)
    requires from + n <= |fifo|
    ensures |r| == n
  {
    fifo[from..from + n]
  }

  /** One chunk from the FIFO. */
  lemma FifoStep(regs: seq<bv8>, fifo: seq<bv8>, length: nat, buffer: nat, k: nat, given: nat, answers: seq<Answer>)
    requires |regs| == 256 && buffer > 0 && k < length <= |fifo| && given <= k
    ensures var a, k' := AnswerTo(answers, Min(length - k, buffer)), k + Min(length, buffer);
      Received(regs, fifo[given..], FIFO_R_W, length, buffer, k, answers).0
      == Span(fifo, given, a.copied)
         + Received(regs, fifo[given + a.given..], FIFO_R_W, length, buffer, k', Later(answers)).0
  {
    hide Later;
    var a := AnswerTo(answers, Min(length - k, buffer));
    hide AnswerTo;
    assert fifo[given..][..a.copied] == Span(fifo, given, a.copied);
    assert fifo[given..][a.given..] == fifo[given + a.given..];
    hide Span;
    ReceivedStep(regs, fifo[given..], FIFO_R_W, length, buffer, k, answers, Span(fifo, given, a.copied));
    hide Received;
  }

  lemma SpanMoved(fifo: seq<bv8>, given: nat, count: nat, n: nat)
    requires given + n <= |fifo| && count <= given && (n > 0 ==> count == given)
    ensures Span(fifo, given, n) == fifo[count..count + n]
    ensures n > 0 ==> Span(fifo, given, n)[0] == fifo[given]
  {
  }

  lemma {:induction false} NoneLostFrom(regs: seq<bv8>, fifo: seq<bv8>, length: nat, buffer: nat, k: nat, count: nat,
                                        given: nat, answers: seq<Answer>)
    requires |regs| == 256 && buffer > 0 && length <= |fifo| && count <= given <= k && given <= length
    requires NoneLost(length, buffer, k, count, given, answers)
    ensures var r := Received(regs, fifo[given..], FIFO_R_W, length, buffer, k, answers).0;
      count + |r| <= length && r == fifo[count..count + |r|]
    decreases length - k
  {
    hide Received, AnswerTo, Later, Span;
    if k < length {
      var a, k' := AnswerTo(answers, Min(length - k, buffer)), k + Min(length, buffer);
      FifoStep(regs, fifo, length, buffer, k, given, answers);
      NoneLostFrom(regs, fifo, length, buffer, k', count + a.copied, given + a.given, Later(answers));
      SpanMoved(fifo, given, count, a.copied);
      var rest := Received(regs, fifo[given + a.given..], FIFO_R_W, length, buffer, k', Later(answers)).0;
      RejoinedPart(fifo, count, a.copied, |rest|, Span(fifo, given, a.copied), rest);
    }
  }

  /** The first place in the data where a byte is missing, and the place in the FIFO of the one that is there. */
  function Gap(length: nat, buffer: nat, k: nat, count: nat, given: nat, answers: seq<Answer>): (nat, nat)
    requires buffer > 0 && !NoneLost(length, buffer, k, count, given, answers)
    decreases length - k
  {
    var a := AnswerTo(answers, Min(length - k, buffer));
    if a.copied > 0 && count != given then (count, given)
    else Gap(length, buffer, k + Min(length, buffer), count + a.copied, given + a.given, Later(answers))
  }

  lemma {:induction false} GapRead(regs: seq<bv8>, fifo: seq<bv8>, length: nat, buffer: nat, k: nat, count: nat,
                                   given: nat, answers: seq<Answer>)
    requires |regs| == 256 && buffer > 0 && length <= |fifo| && count <= given <= k
    requires !NoneLost(length, buffer, k, count, given, answers)
    ensures var (at, from) := Gap(length, buffer, k, count, given, answers);
      var r := Received(regs, fifo[given..], FIFO_R_W, length, buffer, k, answers).0;
      count <= at < from < length && at - count < |r| && r[at - count] == fifo[from]
    decreases length - k
  {
    hide Received, AnswerTo, Later, Span;
    var a, k' := AnswerTo(answers, Min(length - k, buffer)), k + Min(length, buffer);
    FifoStep(regs, fifo, length, buffer, k, given, answers);
    if a.copied > 0 && count != given {
      SpanMoved(fifo, given, given, a.copied);
    } else {
      GapRead(regs, fifo, length, buffer, k', count + a.copied, given + a.given, Later(answers));
    }
  }

  lemma GapShown(regs: seq<bv8>, length: nat, buffer: nat, answers: seq<Answer>) returns (fifo: seq<bv8>)
    requires |regs| == 256 && buffer > 0 && !NoneLost(length, buffer, 0, 0, 0, answers)
    ensures |fifo| == length && !(Received(regs, fifo, FIFO_R_W, length, buffer, 0, answers).0
                                  <= Delivered(regs, fifo, FIFO_R_W, length, buffer))
  {
    hide Received, NoneLost, AnswerTo, Later, Gap;
    var (at, from) := Gap(length, buffer, 0, 0, 0, answers);
    fifo := seq(length, i => if i == from then 1 else 0);
    assert fifo[0..] == fifo;
    GapRead(regs, fifo, length, buffer, 0, 0, 0, answers);
    assert Received(regs, fifo, FIFO_R_W, length, buffer, 0, answers).0[at] == fifo[from] != fifo[at];
    assert Delivered(regs, fifo, FIFO_R_W, length, buffer)[at] == fifo[at];
  }

  /** The same for the FIFO: exactly when no byte that it has given is lost before a later one is copied. */
  lemma FifoPrefixExact(regs: seq<bv8>, length: nat, buffer: nat, answers: seq<Answer>)
    requires |regs| == 256 && buffer > 0
    ensures NoneLost(length, buffer, 0, 0, 0, answers) <==>
      forall fifo: seq<bv8> | length <= |fifo| ::
        Received(regs, fifo, FIFO_R_W, length, buffer, 0, answers).0
        <= Delivered(regs, fifo, FIFO_R_W, length, buffer)
  {
    hide Received, AnswerTo, Later;
    if NoneLost(length, buffer, 0, 0, 0, answers) {
      forall fifo: seq<bv8> | length <= |fifo|
        ensures Received(regs, fifo, FIFO_R_W, length, buffer, 0, answers).0
                <= Delivered(regs, fifo, FIFO_R_W, length, buffer)
      {
        assert fifo[0..] == fifo;
        NoneLostFrom(regs, fifo, length, buffer, 0, 0, 0, answers);
      }
    } else {
      var fifo := GapShown(regs, length, buffer, answers);
      assert length <= |fifo|;
    }
  }

  /** The registers from `reg` on, in order. */
  function InOrder(regs: seq<bv8>, reg: nat, length: nat): seq<bv8>
    requires |regs| == 256
  {
    seq(length, j requires 0 <= j => regs[(reg + j) % 256])
  }

  /**
   Every chunk starts again at the first register: a read of registers is right, whatever they hold, exactly when it
   needs only one chunk. (From the FIFO, which is read without moving on, all chunks are right.)
   */
  lemma {:induction false} InOrderExact(reg: nat, length: nat, buffer: nat)
    requires reg < 256 && reg != FIFO_R_W && length < 256 && 0 < buffer
    ensures length <= buffer <==>
      forall regs: seq<bv8> :: |regs| == 256 ==> Delivered(regs, [], reg, length, buffer) == InOrder(regs, reg, length)
  {
    if length <= buffer {
      forall regs: seq<bv8> | |regs| == 256
        ensures Delivered(regs, [], reg, length, buffer) == InOrder(regs, reg, length)
      {
        forall j | 0 <= j < length
          ensures Delivered(regs, [], reg, length, buffer)[j] == InOrder(regs, reg, length)[j]
        {
          DivUnique(j, 0, j, buffer);
        }
      }
    } else {
      var regs := Repeats(reg, length, buffer);
      assert |regs| == 256;
    }
  }

  /** With more than one chunk, registers that show it. */
  lemma Repeats(reg: nat, length: nat, buffer: nat) returns (regs: seq<bv8>)
    requires reg < 256 && reg != FIFO_R_W && 0 < buffer < length < 256
    ensures |regs| == 256 && Delivered(regs, [], reg, length, buffer) != InOrder(regs, reg, length)
  {
    regs := seq(256, i => if i == reg then 1 else 0);
    DeliveredAt(regs, [], reg, length, buffer, 1, 0);
    assert 1 * buffer + 0 == buffer;
    assert Delivered(regs, [], reg, length, buffer)[buffer] == regs[reg] == 1;
    assert InOrder(regs, reg, length)[buffer] == regs[(reg + buffer) % 256] == 0;
  }

  // ---------------------------------------------------------------- bit fields

  /** Bits `bitStart` down to `bitStart - length + 1`, as the source builds it. */
  function Mask(bitStart: bv8, length: bv8): bv8
    requires 1 <= length <= bitStart + 1 <= 8
  {
    (((1 as bv16 << length) - 1) as bv8) << (bitStart - length + 1)
  }

  /** A value moved to the place of the field. */
  function Placed(data: bv8, bitStart: bv8, length: bv8): bv8
    requires 1 <= length <= bitStart + 1 <= 8
  {
    data << (bitStart - length + 1)
  }

  /** A value moved back from the place of the field. */
  function Lowered(data: bv8, bitStart: bv8, length: bv8): bv8
    requires 1 <= length <= bitStart + 1 <= 8
  {
    data >> (bitStart - length + 1)
  }

  /** b with the bits of the mask taken from d. */
  function Merge(b: bv8, mask: bv8, d: bv8): bv8 {
    Either(Only(b, !mask), Only(d, mask))
  }

  function Either(x: bv8, y: bv8): bv8 {
    x | y
  }

  function Only(b: bv8, mask: bv8): bv8 {
    b & mask
  }

  function Get(b: bv8, bitStart: bv8, length: bv8): bv8
    requires 1 <= length <= bitStart + 1 <= 8
  {
    Lowered(Only(b, Mask(bitStart, length)), bitStart, length)
  }

  function Set(b: bv8, bitStart: bv8, length: bv8, data: bv8): bv8
    requires 1 <= length <= bitStart + 1 <= 8
  {
    Merge(b, Mask(bitStart, length), Placed(data, bitStart, length))
  }

  /** Bit i of a register. */
  predicate Bit(b: bv8, i: bv8)
    requires i < 8
  {
    (b >> i) & 1 == 1
  }

  /** The mask has exactly the bits of the field. */
  lemma MaskBits(bitStart: bv8, length: bv8, i: bv8)
    requires 1 <= length <= bitStart + 1 <= 8 && i < 8
    ensures Bit(Mask(bitStart, length), i) <==> bitStart + 1 <= i + length && i <= bitStart
  {
  }

  lemma MergeBits(b: bv8, mask: bv8, d: bv8, i: bv8)
    requires i < 8
    ensures Bit(Merge(b, mask, d), i) <==> if Bit(mask, i) then Bit(d, i) else Bit(b, i)
  {
  }

  lemma PlacedBits(data: bv8, bitStart: bv8, length: bv8, i: bv8)
    requires 1 <= length <= bitStart + 1 <= 8 && i <= bitStart < i + length
    ensures Bit(Placed(data, bitStart, length), i) <==> Bit(data, i + length - bitStart - 1)
  {
  }

  /** Every bit of a register after a write to a field: the field's come from the data, the others stay. */
  lemma SetBits(b: bv8, bitStart: bv8, length: bv8, data: bv8, i: bv8)
    requires 1 <= length <= bitStart + 1 <= 8 && i < 8
    ensures Bit(Set(b, bitStart, length, data), i) <==>
      if bitStart + 1 <= i + length && i <= bitStart then Bit(data, i + length - bitStart - 1) else Bit(b, i)
  {
    MaskBits(bitStart, length, i);
    MergeBits(b, Mask(bitStart, length), Placed(data, bitStart, length), i);
    if bitStart + 1 <= i + length && i <= bitStart {
      PlacedBits(data, bitStart, length, i);
    }
    hide Mask, Placed, Merge, Bit;
  }

  /** Every bit of what is read from a field. */
  lemma GetBits(b: bv8, bitStart: bv8, length: bv8, i: bv8)
    requires 1 <= length <= bitStart + 1 <= 8 && i < 8
    ensures Bit(Get(b, bitStart, length), i) <==> i < length && Bit(b, bitStart + 1 - length + i)
  {
  }

  /** Data that fits the field is read back as it was written, and no other data is. */
  lemma FittingReadsBack(b: bv8, bitStart: bv8, length: bv8, data: bv8)
    requires 1 <= length <= bitStart + 1 <= 8
    ensures Get(Set(b, bitStart, length, data), bitStart, length) == data <==> data >> length == 0
  {
  }

  /** What has been written to a field is read back, cut to the field. */
  lemma FieldReadsBack(b: bv8, bitStart: bv8, length: bv8, data: bv8)
    requires 1 <= length <= bitStart + 1 <= 8
    ensures Get(Set(b, bitStart, length, data), bitStart, length) == data & Mask(length - 1, length)
  {
  }

  /** No bit outside the field changes. */
  lemma FieldKeepsOthers(b: bv8, bitStart: bv8, length: bv8, data: bv8)
    requires 1 <= length <= bitStart + 1 <= 8
    ensures Only(Set(b, bitStart, length, data), !Mask(bitStart, length)) == Only(b, !Mask(bitStart, length))
  {
  }

  /** So a field with no bit in common keeps its value, and two such writes may come in either order. */
  lemma {:induction false} FieldsIndependent(b: bv8, startA: bv8, lengthA: bv8, a: bv8, startB: bv8, lengthB: bv8,
                                             c: bv8)
    requires 1 <= lengthA <= startA + 1 <= 8 && 1 <= lengthB <= startB + 1 <= 8
    requires Mask(startA, lengthA) & Mask(startB, lengthB) == 0
    ensures Get(Set(b, startA, lengthA, a), startB, lengthB) == Get(b, startB, lengthB)
    ensures Set(Set(b, startA, lengthA, a), startB, lengthB, c) == Set(Set(b, startB, lengthB, c), startA, lengthA, a)
  {
    hide Mask, Placed, Lowered, Merge, Only, Either;
    Independent(b, Mask(startA, lengthA), Placed(a, startA, lengthA),
                Mask(startB, lengthB), Placed(c, startB, lengthB));
  }

  lemma Independent(b: bv8, m: bv8, a: bv8, n: bv8, c: bv8)
    requires m & n == 0
    ensures Only(Merge(b, m, a), n) == Only(b, n)
    ensures Merge(Merge(b, m, a), n, c) == Merge(Merge(b, n, c), m, a)
  {
  }

  /** `readByte`, which leaves `b` as it is when no byte is copied; `unset` is what an unset variable holds. */
  method ReadByte(slave: Slave, reg: nat, answers: seq<Answer>, late: bool, unset: bv8, buffer: nat)
    returns (r: int, b: bv8)
    requires slave.Valid() && reg < 256 && reg != FIFO_R_W && 0 < buffer
    modifies slave`pointer, slave`fifo
    ensures slave.Valid() && slave.fifo == old(slave.fifo)
    ensures if AnswerTo(answers, 1).copied == 1 then r == 1 && b == slave.regs[reg]
            else r == (if late then -1 else 0) && b == unset
  {
    var data := new bv8[1];
    data[0] := unset;
    r := ReadBytes(slave, reg, 1, data, buffer, answers, late);
    ghost var all := Received(slave.regs, slave.fifo, reg, 1, buffer, 0, answers).0;
    assert |all| == 1 ==> data[..1][0] == slave.regs[reg];
    b := data[0];
  }

  /** `readBits`; `before` is what the caller's variable holds. */
  method ReadBits(slave: Slave, reg: nat, bitStart: bv8, length: bv8, before: bv8, answers: seq<Answer>, late: bool,
                  unset: bv8, buffer: nat)
    returns (r: int, data: bv8)
    requires slave.Valid() && reg < 256 && reg != FIFO_R_W && 0 < buffer && 1 <= length <= bitStart + 1 <= 8
    modifies slave`pointer, slave`fifo
    ensures slave.Valid() && slave.fifo == old(slave.fifo)
    ensures var copied := AnswerTo(answers, 1).copied == 1;
      && r == (if copied then 1 else if late then -1 else 0)
      && data == (if copied then Get(slave.regs[reg], bitStart, length)
                  else if late then Get(unset, bitStart, length) else before)
  {
    hide Mask, Lowered, Only, AnswerTo;
    var b;
    data := before;
    r, b := ReadByte(slave, reg, answers, late, unset, buffer);
    if r != 0 {
      var mask := Mask(bitStart, length);
      b := Only(b, mask);
      b := Lowered(b, bitStart, length);
      data := b;
    }
  }

  /**
   Writes a field of a register, unless the read of the register gives no byte. A timeout of that read counts as
   success, so that the rest of the register is then made from the unset variable.
   */
  method WriteBits(slave: Slave, reg: nat, bitStart: bv8, length: bv8, data: bv8, answers: seq<Answer>, late: bool,
                   unset: bv8, buffer: nat, acknowledged: bool)
    returns (ok: bool)
    requires slave.Valid() && reg < 256 && reg != FIFO_R_W && 0 < buffer && 1 <= length <= bitStart + 1 <= 8
    modifies slave`pointer, slave`fifo, slave`regs
    ensures slave.Valid() && slave.fifo == old(slave.fifo)
    ensures var copied := AnswerTo(answers, 1).copied == 1;
      && (ok <==> (copied || late) && acknowledged)
      && slave.regs == (if ok then old(slave.regs)[reg := Set(if copied then old(slave.regs)[reg] else unset,
                                                              bitStart, length, data)]
                        else old(slave.regs))
  {
    hide *;
    var r, b := ReadByte(slave, reg, answers, late, unset, buffer);
    ghost var read := b;
    if r != 0 {
      var mask := Mask(bitStart, length);
      var placed := Placed(data, bitStart, length);
      placed := placed & mask;
      b := b & !mask;
      b := b | placed;
      SetIs(read, bitStart, length, data);
      ok := slave.WriteByte(reg, b, acknowledged);
    } else {
      ok := false;
    }
  }

  lemma SetIs(b: bv8, bitStart: bv8, length: bv8, data: bv8)
    requires 1 <= length <= bitStart + 1 <= 8
    ensures var mask := Mask(bitStart, length);
      (b & !mask) | (Placed(data, bitStart, length) & mask) == Set(b, bitStart, length, data)
  {
    hide Mask, Placed;
  }

  /** The rest of a register survives a write exactly when the value read agrees with it outside the field. */
  lemma RestSurvivesExact(b: bv8, read: bv8, bitStart: bv8, length: bv8, data: bv8)
    requires 1 <= length <= bitStart + 1 <= 8
    ensures Set(read, bitStart, length, data) == Set(b, bitStart, length, data) <==>
      Only(read, !Mask(bitStart, length)) == Only(b, !Mask(bitStart, length))
  {
    FieldKeepsOthers(b, bitStart, length, data);
    FieldKeepsOthers(read, bitStart, length, data);
    hide Mask, Placed, Only, Either;
  }
}
