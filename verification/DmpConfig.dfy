/**
 `writeDMPConfigurationSet` of MPU6050.cpp: a configuration is a list of memory blocks and special commands in one
 byte string, and loading it interprets that string.
 */
module DmpConfig {
  import opened Bytes
  import opened MpuMemory

  const ENABLE_INTERRUPTS: byte := 0x01
  const INTERRUPTS: byte := 0x32

  datatype Command = Block(bank: byte, offset: byte, data: seq<byte>) | Special(bank: byte, offset: byte, code: byte)

  predicate ValidCommand(c: Command) {
    c.Block? ==> 1 <= |c.data| < 256
  }

  predicate Known(c: Command) {
    c.Block? || c.code == ENABLE_INTERRUPTS
  }

  function SerialiseOne(c: Command): seq<byte>
    requires ValidCommand(c)
  {
    match c
    case Block(bank, offset, data) => [bank, offset, |data|] + data
    case Special(bank, offset, code) => [bank, offset, 0, code]
  }

  function Serialise(cs: seq<Command>): seq<byte>
    requires forall i :: 0 <= i < |cs| ==> ValidCommand(cs[i])
  {
    if cs == [] then [] else SerialiseOne(cs[0]) + Serialise(cs[1..])
  }

  /** What commands act on. */
  datatype Target = Target(mem: seq<byte>, intEnable: byte)

  function Apply(t: Target, c: Command): (r: Target)
    requires |t.mem| == MEMORY_SIZE
    ensures |r.mem| == MEMORY_SIZE
  {
    match c
    case Block(bank, offset, data) => t.(mem := WriteFlat(t.mem, FlatAddress(bank, offset), data))
    case Special(_, _, code) => if code == ENABLE_INTERRUPTS then t.(intEnable := INTERRUPTS) else t
  }

  function ApplyAll(t: Target, cs: seq<Command>): (r: Target)
    requires |t.mem| == MEMORY_SIZE
    ensures |r.mem| == MEMORY_SIZE
  {
    if cs == [] then t else Apply(ApplyAll(t, cs[..|cs| - 1]), cs[|cs| - 1])
  }

  /** A command says nothing about a cell: it is special, or a block that lies elsewhere in the memory. */
  predicate Spares(c: Command, a: nat) {
    c.Block? ==>
      var start := c.bank * 256 + c.offset;
      start + |c.data| <= MEMORY_SIZE && !(start <= a < start + |c.data|)
  }

  /** A block leaves its data from its bank and offset on, and every other cell and the interrupts as they were. */
  lemma BlockLoaded(t: Target, bank: byte, offset: byte, data: seq<byte>, a: nat)
    requires |t.mem| == MEMORY_SIZE && bank * 256 + offset + |data| <= MEMORY_SIZE && a < MEMORY_SIZE
    ensures var r, start := Apply(t, Block(bank, offset, data)), bank * 256 + offset;
      && r.mem[a] == (if start <= a < start + |data| then data[a - start] else t.mem[a])
      && r.intEnable == t.intEnable
  {
    WriteFlatAt(t.mem, bank * 256 + offset, data, a);
  }

  /** What a block has left stays there over commands that spare the cell. */
  lemma {:induction false} LastBlockStays(t: Target, cs: seq<Command>, bank: byte, offset: byte, data: seq<byte>,
                                          later: seq<Command>, k: nat)
    requires |t.mem| == MEMORY_SIZE && bank * 256 + offset + |data| <= MEMORY_SIZE && k < |data|
    requires forall i :: 0 <= i < |later| ==> Spares(later[i], bank * 256 + offset + k)
    ensures ApplyAll(t, cs + [Block(bank, offset, data)] + later).mem[bank * 256 + offset + k] == data[k]
    decreases |later|
  {
    var all, a := cs + [Block(bank, offset, data)] + later, bank * 256 + offset + k;
    if later == [] {
      assert all[..|all| - 1] == cs && all[|all| - 1] == Block(bank, offset, data);
      BlockLoaded(ApplyAll(t, cs), bank, offset, data, a);
    } else {
      var n := |later| - 1;
      var last := later[n];
      assert all[..|all| - 1] == cs + [Block(bank, offset, data)] + later[..n] && all[|all| - 1] == last;
      LastBlockStays(t, cs, bank, offset, data, later[..n], k);
      assert Spares(last, a);
      if last.Block? {
        BlockLoaded(ApplyAll(t, all[..|all| - 1]), last.bank, last.offset, last.data, a);
      }
    }
  }

  /** Special 1 enables the interrupts, with the bits 0x32, and any other special changes nothing. */
  lemma SpecialApplied(t: Target, bank: byte, offset: byte, code: byte)
    requires |t.mem| == MEMORY_SIZE
    ensures Known(Special(bank, offset, code)) <==> code == 1
    ensures Apply(t, Special(bank, offset, code)) == if code == 1 then Target(t.mem, 0x32) else t
  {
  }

  // ---------------------------------------------------------------- reading the string

  /** The first command of a string, and how many bytes it takes; None if the string is cut short. */
  function First(data: seq<byte>): (r: Option<(Command, nat)>)
    ensures r.Some? ==> ValidCommand(r.value.0) && 0 < r.value.1 <= |data|
  {
    if |data| < 3 then None
    else
      var length: nat := data[2];
      if length > 0 then
        if |data| < 3 + length then None else Some((Block(data[0], data[1], data[3..3 + length]), 3 + length))
      else if |data| < 4 then None
      else Some((Special(data[0], data[1], data[3]), 4))
  }

  /** The string is a list of whole commands, at least up to the first unknown one. */
  predicate WellFormed(data: seq<byte>)
    decreases |data|
  {
    data == [] ||
    (First(data).Some? && (!Known(First(data).value.0) || WellFormed(data[First(data).value.1..])))
  }

  /** The commands of the string, up to and with the first unknown one. */
  function Commands(data: seq<byte>): seq<Command>
    requires WellFormed(data)
    decreases |data|
  {
    if data == [] then []
    else
      var (c, n) := First(data).value;
      if Known(c) then [c] + Commands(data[n..]) else [c]
  }

  predicate AllKnown(cs: seq<Command>) {
    forall i :: 0 <= i < |cs| ==> Known(cs[i])
  }

  /** The commands before the first unknown one. */
  function KnownPrefix(cs: seq<Command>): (r: seq<Command>)
    ensures AllKnown(r) && r <= cs
    ensures r == cs || !Known(cs[|r|])
  {
    if cs == [] || !Known(cs[0]) then [] else [cs[0]] + KnownPrefix(cs[1..])
  }

  lemma FirstOfSerialised(c: Command, more: seq<byte>)
    requires ValidCommand(c)
    ensures First(SerialiseOne(c) + more) == Some((c, |SerialiseOne(c)|))
    ensures (SerialiseOne(c) + more)[|SerialiseOne(c)|..] == more
  {
    var data := SerialiseOne(c) + more;
    match c {
      case Block(bank, offset, d) =>
        assert data[3..3 + |d|] == d;
      case Special(_, _, _) =>
    }
  }

  /** The two formats: a block is its bank, offset, length and data, a special has the length 0 and one byte of code. */
  lemma Formats(bank: byte, offset: byte, code: byte, data: seq<byte>, more: seq<byte>)
    requires 1 <= |data| < 256
    ensures First([bank, offset, |data|] + data + more) == Some((Block(bank, offset, data), 3 + |data|))
    ensures First([bank, offset, 0, code] + more) == Some((Special(bank, offset, code), 4))
  {
    FirstOfSerialised(Block(bank, offset, data), more);
    FirstOfSerialised(Special(bank, offset, code), more);
  }

  /** Reading is the inverse of serialising, for any list of valid commands, up to the first unknown one. */
  lemma {:induction false} CommandsOfSerialised(cs: seq<Command>, junk: seq<byte>)
    requires forall i :: 0 <= i < |cs| ==> ValidCommand(cs[i])
    requires AllKnown(cs) ==> junk == []
    ensures var data := Serialise(cs) + junk; var k := |KnownPrefix(cs)|;
      WellFormed(data) && Commands(data) == if AllKnown(cs) then cs else cs[..k + 1]
    decreases |cs|
  {
    if cs == [] {
      assert Serialise(cs) + junk == [];
    } else {
      var c, rest := cs[0], Serialise(cs[1..]) + junk;
      var data := Serialise(cs) + junk;
      assert data == SerialiseOne(c) + rest;
      FirstOfSerialised(c, rest);
      AllKnownSplit(cs);
      hide First, SerialiseOne, AllKnown;
      if Known(c) {
        CommandsOfSerialised(cs[1..], junk);
        var k := |KnownPrefix(cs[1..])|;
        if !AllKnown(cs) {
          assert cs[..k + 2] == [c] + cs[1..][..k + 1];
        } else {
          assert cs == [c] + cs[1..];
        }
      } else {
        assert cs[..1] == [c];
      }
    }
  }

  lemma AllKnownSplit(cs: seq<Command>)
    requires cs != []
    ensures AllKnown(cs) <==> Known(cs[0]) && AllKnown(cs[1..])
    ensures !AllKnown(cs) ==> |KnownPrefix(cs)| < |cs|
  {
    if Known(cs[0]) && AllKnown(cs[1..]) {
      assert forall i :: 1 <= i < |cs| ==> cs[i] == cs[1..][i - 1];
    }
  }

  /** Loading a serialised list does what the list says: all of it, or what comes before its first unknown command. */
  lemma {:induction false} SerialisedMeaning(cs: seq<Command>, junk: seq<byte>)
    requires forall i :: 0 <= i < |cs| ==> ValidCommand(cs[i])
    requires AllKnown(cs) ==> junk == []
    ensures var data := Serialise(cs) + junk;
      && WellFormed(data)
      && (AllKnown(Commands(data)) <==> AllKnown(cs))
      && KnownPrefix(Commands(data)) == KnownPrefix(cs)
  {
    CommandsOfSerialised(cs, junk);
    hide Serialise, WellFormed, Commands;
    if AllKnown(cs) {
      AllKnownPrefix(cs);
    } else {
      CutAfterUnknown(cs);
    }
    hide KnownPrefix, AllKnown;
  }

  /** The list up to and with its first unknown command has the same known prefix. */
  lemma {:induction false} CutAfterUnknown(cs: seq<Command>)
    requires !AllKnown(cs)
    ensures var k := |KnownPrefix(cs)|;
      k < |cs| && KnownPrefix(cs[..k + 1]) == KnownPrefix(cs) && !AllKnown(cs[..k + 1])
  {
    var k := |KnownPrefix(cs)|;
    assert KnownPrefix(cs) != cs && !Known(cs[k]);
    hide KnownPrefix, Known;
    assert cs[..k + 1] == KnownPrefix(cs) + [cs[k]];
    UnknownEnds(KnownPrefix(cs), cs[k], cs[..k + 1]);
  }

  // ---------------------------------------------------------------- the interpreter

  /** The size of a pointer, which is what `sizeof(progBuffer)` is. */
  const ADDRESS_SIZE: nat := 4

  ghost function TargetOf(mpu: Mpu): (t: Target)
    requires mpu.Valid()
    reads mpu, mpu.memory
    ensures |t.mem| == MEMORY_SIZE
  {
    Target(mpu.Memory(), mpu.intEnable)
  }

  /** Does the command at the beginning of `rest`; false if it is unknown. */
  method DoCommand(mpu: Mpu, buffer: array<byte>, rest: seq<byte>, useProgMem: bool)
    returns (success: bool, n: nat, progBuffer: array<byte>)
    requires mpu.Valid() && |rest| < 0x1_0000 && First(rest).Some? && buffer.Length >= ADDRESS_SIZE
    requires buffer != mpu.memory
    modifies mpu`bankSel, mpu`memStart, mpu`transfers, mpu`intEnable, mpu.memory, buffer
    ensures mpu.Valid() && (progBuffer == buffer || fresh(progBuffer)) && progBuffer.Length >= ADDRESS_SIZE
    ensures n == First(rest).value.1 && (success <==> Known(First(rest).value.0))
    ensures TargetOf(mpu) == Apply(old(TargetOf(mpu)), First(rest).value.0)
    ensures InBanksFrom(mpu.transfers, |old(mpu.transfers)|) && old(mpu.transfers) <= mpu.transfers
  {
    var bank, offset := rest[0], rest[1];
    var length: nat := rest[2];
    progBuffer := buffer;
    if length > 0 {
      var block := rest[3..3 + length];
      if useProgMem {
        if ADDRESS_SIZE < length {
          progBuffer := new byte[length];
        }
        block := CopyChunk(progBuffer, rest, 3, length);
      }
      success := WriteMemoryBlock(mpu, block, bank, offset, true, false);
      n := 3 + length;
    } else {
      var special := rest[3];
      n := 4;
      if special == 0x01 {
        mpu.intEnable := 0x32;
        success := true;
      } else {
        success := false;
      }
    }
  }

  /**
   Main result: a well-formed string is consumed to its end and has the effect of its commands in order; at an unknown
   special command loading fails with exactly the commands before it applied. Program memory makes no difference.
   */
  method WriteDMPConfigurationSet(mpu: Mpu, data: seq<byte>, useProgMem: bool) returns (ok: bool)
    requires mpu.Valid() && |data| < 0x1_0000 && WellFormed(data)
    modifies mpu`bankSel, mpu`memStart, mpu`transfers, mpu`intEnable, mpu.memory
    ensures mpu.Valid()
    ensures ok <==> AllKnown(Commands(data))
    ensures TargetOf(mpu) == ApplyAll(old(TargetOf(mpu)), KnownPrefix(Commands(data)))
    ensures InBanksFrom(mpu.transfers, |old(mpu.transfers)|)
  {
    var progBuffer := new byte[8];
    var i := 0;
    ghost var done: seq<Command> := [];
    ghost var t0 := TargetOf(mpu);
    while i < |data|
      invariant mpu.Valid() && 0 <= i <= |data| && WellFormed(data[i..])
      invariant fresh(progBuffer) && progBuffer.Length >= ADDRESS_SIZE
      invariant AllKnown(done) && Commands(data) == done + Commands(data[i..])
      invariant TargetOf(mpu) == ApplyAll(t0, done)
      invariant InBanksFrom(mpu.transfers, |old(mpu.transfers)|)
    {
      hide ApplyAll, KnownPrefix, InBanksFrom, Known, TargetOf;
      ghost var c := First(data[i..]).value.0;
      var success, n;
      success, n, progBuffer := DoCommand(mpu, progBuffer, data[i..], useProgMem);
      if !success {
        UnknownEnds(done, c, Commands(data));
        return false;
      }
      ApplySnoc(t0, done, c);
      assert data[i..][n..] == data[i + n..];
      AppendOne(done, c, Commands(data[i + n..]));
      done := done + [c];
      i := i + n;
    }
    assert Commands(data) == done;
    AllKnownPrefix(done);
    ok := true;
  }

  lemma AppendOne(done: seq<Command>, c: Command, rest: seq<Command>)
    ensures done + ([c] + rest) == done + [c] + rest
    ensures AllKnown(done) && Known(c) ==> AllKnown(done + [c])
  {
  }

  lemma ApplySnoc(t: Target, cs: seq<Command>, c: Command)
    requires |t.mem| == MEMORY_SIZE
    ensures ApplyAll(t, cs + [c]) == Apply(ApplyAll(t, cs), c)
  {
    assert (cs + [c])[..|cs|] == cs;
  }

  lemma {:induction false} AllKnownPrefix(cs: seq<Command>)
    requires AllKnown(cs)
    ensures KnownPrefix(cs) == cs
  {
    if |KnownPrefix(cs)| < |cs| {
      assert Known(cs[|KnownPrefix(cs)|]);
    }
  }

  lemma UnknownEnds(done: seq<Command>, c: Command, cs: seq<Command>)
    requires AllKnown(done) && !Known(c) && cs == done + [c]
    ensures KnownPrefix(cs) == done && !AllKnown(cs)
  {
    assert cs[|done|] == c;
    assert forall k :: 0 <= k < |done| ==> cs[k] == done[k];
  }
}
