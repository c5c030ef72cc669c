/**
 The banked memory of the MPU6050 as MPU6050.cpp reads and writes it: in chunks that never cross a bank, with an
 address register of 8 bits.
 */
module MpuMemory {
  import opened Bytes

  const BANK_SIZE: nat := 256
  const BANKS: nat := 32
  const MEMORY_SIZE: nat := 8192
  const CHUNK_SIZE: nat := 16

  // ---------------------------------------------------------------- flat memory

  /** The memory after `data` has been written byte by byte from address `start` on, around the end of the memory. */
  function WriteFlat(mem: seq<byte>, start: nat, data: seq<byte>): (r: seq<byte>)
    requires |mem| == MEMORY_SIZE
    ensures |r| == MEMORY_SIZE
  {
    if data == [] then mem
    else WriteFlat(mem, start, data[..|data| - 1])[(start + |data| - 1) % MEMORY_SIZE := data[|data| - 1]]
  }

  function ReadFlat(mem: seq<byte>, start: nat, n: nat): (r: seq<byte>)
    requires |mem| == MEMORY_SIZE
    ensures |r| == n && forall k :: 0 <= k < n ==> r[k] == mem[(start + k) % MEMORY_SIZE]
  {
    seq<byte>(n, k requires 0 <= k < n => mem[(start + k) % MEMORY_SIZE])
  }

  lemma WriteFlatSnoc(mem: seq<byte>, start: nat, data: seq<byte>, b: byte)
    requires |mem| == MEMORY_SIZE
    ensures WriteFlat(mem, start, data + [b]) == WriteFlat(mem, start, data)[(start + |data|) % MEMORY_SIZE := b]
  {
    assert (data + [b])[..|data|] == data;
  }

  lemma {:induction false} WriteFlatConcat(mem: seq<byte>, start: nat, s: seq<byte>, t: seq<byte>)
    requires |mem| == MEMORY_SIZE
    ensures WriteFlat(mem, start, s + t) == WriteFlat(WriteFlat(mem, start, s), start + |s|, t)
    decreases |t|
  {
    if t == [] {
      assert s + t == s;
    } else {
      var k := |t| - 1;
      assert s + t == (s + t[..k]) + [t[k]];
      WriteFlatSnoc(mem, start, s + t[..k], t[k]);
      WriteFlatConcat(mem, start, s, t[..k]);
    }
  }

  lemma {:induction false} WriteFlatAt(mem: seq<byte>, start: nat, data: seq<byte>, a: nat)
    requires |mem| == MEMORY_SIZE && start + |data| <= MEMORY_SIZE && a < MEMORY_SIZE
    ensures WriteFlat(mem, start, data)[a] == if start <= a < start + |data| then data[a - start] else mem[a]
    decreases |data|
  {
    if data != [] {
      WriteFlatAt(mem, start, data[..|data| - 1], a);
    }
  }

  /** Within the memory, exactly the range changes, to the data. */
  lemma {:induction false} WriteFlatIsSplice(mem: seq<byte>, start: nat, data: seq<byte>)
    requires |mem| == MEMORY_SIZE && start + |data| <= MEMORY_SIZE
    ensures WriteFlat(mem, start, data) == mem[..start] + data + mem[start + |data|..]
  {
    forall a | 0 <= a < MEMORY_SIZE
      ensures WriteFlat(mem, start, data)[a] == (mem[..start] + data + mem[start + |data|..])[a]
    {
      WriteFlatAt(mem, start, data, a);
    }
  }

  lemma SameCell(start: nat, j: nat, k: nat)
    requires j < MEMORY_SIZE && k < MEMORY_SIZE && (start + j) % MEMORY_SIZE == (start + k) % MEMORY_SIZE
    ensures j == k
  {
  }

  /** What was written is read back, around the end of the memory too, as long as it fits into the memory. */
  lemma {:induction false} ReadBack(mem: seq<byte>, start: nat, data: seq<byte>)
    requires |mem| == MEMORY_SIZE && |data| <= MEMORY_SIZE
    ensures ReadFlat(WriteFlat(mem, start, data), start, |data|) == data
    decreases |data|
  {
    if data != [] {
      var k := |data| - 1;
      ReadBack(mem, start, data[..k]);
      var before := WriteFlat(mem, start, data[..k]);
      forall j | 0 <= j < |data|
        ensures ReadFlat(WriteFlat(mem, start, data), start, |data|)[j] == data[j]
      {
        if j < k {
          assert ReadFlat(before, start, k)[j] == data[..k][j];
          if (start + j) % MEMORY_SIZE == (start + k) % MEMORY_SIZE {
            SameCell(start, j, k);
          }
        }
      }
    }
  }

  // ---------------------------------------------------------------- the device

  /** A transfer through MEM_R_W: where in a bank it began, and how many bytes it moved. */
  datatype Transfer = Transfer(address: byte, n: nat)

  predicate InBank(t: Transfer) {
    1 <= t.n <= CHUNK_SIZE && t.address + t.n <= BANK_SIZE
  }

  /** `from` cells before the n-th transfer are left alone; every later transfer stays within a bank. */
  predicate InBanksFrom(ts: seq<Transfer>, n: nat) {
    n <= |ts| && forall i :: n <= i < |ts| ==> InBank(ts[i])
  }

  /** The sensor: a bank register, an address that advances with every byte moved, and the memory behind them. */
  class Mpu {
    const memory: array<byte>
    var bankSel: byte
    var memStart: byte
    var intEnable: byte
    ghost var transfers: seq<Transfer>

    ghost predicate Valid()
      reads this
    {
      memory.Length == MEMORY_SIZE
    }

    ghost function Memory(): seq<byte>
      requires Valid()
      reads this, memory
      ensures |Memory()| == MEMORY_SIZE
    {
      memory[..]
    }

    /** The cell the next byte goes to or comes from. */
    function Cell(): (a: nat)
      reads this
      ensures a < MEMORY_SIZE
    {
      bankSel % BANKS * BANK_SIZE + memStart
    }

    constructor ()
      ensures Valid() && fresh(memory) && transfers == []
    {
      memory := new byte[MEMORY_SIZE](i => 0);
      bankSel, memStart, intEnable, transfers := 0, 0, 0, [];
    }

    method SetMemoryBank(bank: byte, prefetchEnabled: bool := false, userBank: bool := false)
      modifies `bankSel
      ensures bankSel % BANKS == bank % BANKS
    {
      var b := bank % BANKS;
      if userBank {
        b := b + 0x20;
      }
      if prefetchEnabled {
        b := b + 0x40;
      }
      bankSel := b;
    }

    method SetMemoryStartAddress(address: byte)
      modifies `memStart
      ensures memStart == address
    {
      memStart := address;
    }

    /** Bus write of a buffer to MEM_R_W. */
    method WriteBytes(data: seq<byte>)
      requires Valid() && memStart + |data| <= BANK_SIZE
      modifies `memStart, `transfers, memory
      ensures Valid() && transfers == old(transfers) + [Transfer(old(memStart), |data|)]
      ensures Memory() == WriteFlat(old(Memory()), old(Cell()), data)
    {
      ghost var cell := Cell();
      assert data[..0] == [] && WriteFlat(Memory(), cell, []) == Memory();
      hide WriteFlat;
      transfers := transfers + [Transfer(memStart, |data|)];
      for i := 0 to |data|
        invariant memStart == ToByte(old(memStart) + i)
        invariant transfers == old(transfers) + [Transfer(old(memStart), |data|)]
        invariant Memory() == WriteFlat(old(Memory()), cell, data[..i])
      {
        assert data[..i + 1] == data[..i] + [data[i]];
        WriteFlatSnoc(old(Memory()), cell, data[..i], data[i]);
        assert Cell() == cell + i;
        memory[Cell()] := data[i];
        memStart := ToByte(memStart + 1);
      }
      assert data[..|data|] == data;
    }

    /** Bus read of n bytes from MEM_R_W. */
    method ReadBytes(n: nat) returns (data: seq<byte>)
      requires Valid() && memStart + n <= BANK_SIZE
      modifies `memStart, `transfers
      ensures transfers == old(transfers) + [Transfer(old(memStart), n)]
      ensures data == ReadFlat(Memory(), old(Cell()), n)
    {
      ghost var cell := Cell();
      transfers := transfers + [Transfer(memStart, n)];
      data := [];
      for i := 0 to n
        invariant memStart == ToByte(old(memStart) + i) && transfers == old(transfers) + [Transfer(old(memStart), n)]
        invariant |data| == i && forall k :: 0 <= k < i ==> data[k] == ReadFlat(Memory(), cell, n)[k]
      {
        assert Cell() == cell + i;
        data := data + [memory[Cell()]];
        memStart := ToByte(memStart + 1);
      }
    }
  }

  // ---------------------------------------------------------------- chunked transfers

  /** The flat address of a bank and an address in it. */
  function FlatAddress(bank: byte, address: byte): nat {
    bank * BANK_SIZE + address
  }

  /** The size of the next chunk: no more than 16 bytes, than is left, or than fits into the bank. */
  function ChunkSize(left: nat, address: byte): (n: nat)
    requires left > 0
    ensures InBank(Transfer(address, n)) && n <= left
  {
    var n := CHUNK_SIZE;
    var n := if n > left then left else n;
    if n > BANK_SIZE - address then BANK_SIZE - address else n
  }

  lemma CellOf(bank: byte, address: byte)
    ensures bank % BANKS * BANK_SIZE + address == FlatAddress(bank, address) % MEMORY_SIZE
  {
  }

  /** Address and bank wrap around like the flat address does. */
  lemma NextPosition(bank: byte, address: byte, n: nat)
    requires 1 <= n <= BANK_SIZE - address
    ensures var a := ToByte(address + n); var b := if a == 0 then NextBank(bank) else bank;
      FlatAddress(b, a) % MEMORY_SIZE == (FlatAddress(bank, address) + n) % MEMORY_SIZE
  {
  }

  lemma ModAdd(x: nat, y: nat, n: nat)
    requires x % MEMORY_SIZE == y % MEMORY_SIZE
    ensures (x + n) % MEMORY_SIZE == (y + n) % MEMORY_SIZE
  {
  }

  lemma {:induction false} WriteFlatMod(mem: seq<byte>, s: nat, t: nat, data: seq<byte>)
    requires |mem| == MEMORY_SIZE && s % MEMORY_SIZE == t % MEMORY_SIZE
    ensures WriteFlat(mem, s, data) == WriteFlat(mem, t, data)
    decreases |data|
  {
    if data != [] {
      WriteFlatMod(mem, s, t, data[..|data| - 1]);
      ModAdd(s, t, |data| - 1);
    }
  }

  lemma ReadFlatMod(mem: seq<byte>, s: nat, t: nat, n: nat)
    requires |mem| == MEMORY_SIZE && s % MEMORY_SIZE == t % MEMORY_SIZE
    ensures ReadFlat(mem, s, n) == ReadFlat(mem, t, n)
  {
    forall k | 0 <= k < n
      ensures ReadFlat(mem, s, n)[k] == ReadFlat(mem, t, n)[k]
    {
      ModAdd(s, t, k);
    }
  }

  /** Points the device at a flat address. */
  method Seek(mpu: Mpu, bank: byte, address: byte)
    modifies mpu`bankSel, mpu`memStart
    ensures mpu.memStart == address && mpu.Cell() == FlatAddress(bank, address) % MEMORY_SIZE
  {
    mpu.SetMemoryBank(bank);
    mpu.SetMemoryStartAddress(address);
    CellOf(bank, address);
  }

  /** Writes one chunk where the device points, and checks it if asked. */
  method WriteChunk(mpu: Mpu, chunk: seq<byte>, bank: byte, address: byte, verify: bool) returns (ok: bool)
    requires mpu.Valid() && InBank(Transfer(address, |chunk|))
    requires mpu.memStart == address && mpu.Cell() == FlatAddress(bank, address) % MEMORY_SIZE
    modifies mpu`bankSel, mpu`memStart, mpu`transfers, mpu.memory
    ensures mpu.Valid() && ok
    ensures mpu.Memory() == WriteFlat(old(mpu.Memory()), FlatAddress(bank, address), chunk)
    ensures InBanksFrom(mpu.transfers, |old(mpu.transfers)|) && old(mpu.transfers) <= mpu.transfers
  {
    ghost var mem, cell, flat := mpu.Memory(), mpu.Cell(), FlatAddress(bank, address);
    mpu.WriteBytes(chunk);
    WriteFlatMod(mem, cell, flat, chunk);
    if verify {
      Seek(mpu, bank, address);
      var verifyBuffer := mpu.ReadBytes(|chunk|);
      ReadBack(mem, flat, chunk);
      ReadFlatMod(mpu.Memory(), flat % MEMORY_SIZE, flat, |chunk|);
      if chunk != verifyBuffer {
        return false;
      }
    }
    ok := true;
  }

  lemma ChunkWritten(mem: seq<byte>, start: nat, data: seq<byte>, i: nat, n: nat, flat: nat)
    requires |mem| == MEMORY_SIZE && i + n <= |data| && flat % MEMORY_SIZE == (start + i) % MEMORY_SIZE
    ensures WriteFlat(WriteFlat(mem, start, data[..i]), flat, data[i..i + n]) == WriteFlat(mem, start, data[..i + n])
  {
    assert data[..i + n] == data[..i] + data[i..i + n];
    WriteFlatConcat(mem, start, data[..i], data[i..i + n]);
    WriteFlatMod(WriteFlat(mem, start, data[..i]), flat, start + i, data[i..i + n]);
  }

  /** Moves on by a chunk; if there is more to do, the device is pointed at the new place. */
  method Advance(mpu: Mpu, bank0: byte, address0: byte, chunkSize: nat, more: bool, ghost flat: nat)
    returns (bank: byte, address: byte)
    requires 1 <= chunkSize <= BANK_SIZE - address0
    requires FlatAddress(bank0, address0) % MEMORY_SIZE == flat % MEMORY_SIZE
    modifies mpu`bankSel, mpu`memStart
    ensures more ==> FlatAddress(bank, address) % MEMORY_SIZE == (flat + chunkSize) % MEMORY_SIZE
    ensures more ==> mpu.memStart == address && mpu.Cell() == FlatAddress(bank, address) % MEMORY_SIZE
  {
    NextPosition(bank0, address0, chunkSize);
    ModAdd(FlatAddress(bank0, address0), flat, chunkSize);
    bank := bank0;
    address := ToByte(address0 + chunkSize);
    if more {
      if address == 0 {
        bank := NextBank(bank0);
      }
      Seek(mpu, bank, address);
    }
  }

  function NextBank(bank: byte): byte {
    ToByte(bank as int + 1)
  }

  /**
   Main result on writes: for every block, bank and address the flat memory receives the block byte by byte, no
   transfer crosses a bank, verification succeeds, and reading from program memory makes no difference.
   */
  method WriteMemoryBlock(mpu: Mpu, data: seq<byte>, bank0: byte, address0: byte, verify: bool, useProgMem: bool)
    returns (ok: bool)
    requires mpu.Valid() && |data| < 0x1_0000
    modifies mpu`bankSel, mpu`memStart, mpu`transfers, mpu.memory
    ensures mpu.Valid() && ok
    ensures mpu.Memory() == WriteFlat(old(mpu.Memory()), FlatAddress(bank0, address0), data)
    ensures InBanksFrom(mpu.transfers, |old(mpu.transfers)|) && old(mpu.transfers) <= mpu.transfers
  {
    var bank, address := bank0, address0;
    ghost var start := FlatAddress(bank0, address0);
    Seek(mpu, bank, address);
    var prog := new byte[CHUNK_SIZE];
    var i := 0;
    while i < |data|
      invariant mpu.Valid() && 0 <= i <= |data|
      invariant i < |data| ==> FlatAddress(bank, address) % MEMORY_SIZE == (start + i) % MEMORY_SIZE
      invariant i < |data| ==> mpu.memStart == address && mpu.Cell() == FlatAddress(bank, address) % MEMORY_SIZE
      invariant mpu.Memory() == WriteFlat(old(mpu.Memory()), start, data[..i])
      invariant InBanksFrom(mpu.transfers, |old(mpu.transfers)|) && old(mpu.transfers) <= mpu.transfers
    {
      var chunkSize := ChunkSize(|data| - i, address);
      var progBuffer := data[i..i + chunkSize];
      if useProgMem {
        progBuffer := CopyChunk(prog, data, i, chunkSize);
      }
      var written := WriteChunk(mpu, progBuffer, bank, address, verify);
      if !written {
        return false;
      }
      ChunkWritten(old(mpu.Memory()), start, data, i, chunkSize, FlatAddress(bank, address));
      bank, address := Advance(mpu, bank, address, chunkSize, i + chunkSize < |data|, start + i);
      i := i + chunkSize;
    }
    assert data[..|data|] == data;
    ok := true;
  }

  /** Copies a chunk from program memory into the buffer. */
  method CopyChunk(prog: array<byte>, data: seq<byte>, i: nat, n: nat) returns (chunk: seq<byte>)
    requires i + n <= |data| && n <= prog.Length
    modifies prog
    ensures chunk == data[i..i + n]
  {
    for j := 0 to n
      invariant forall k :: 0 <= k < j ==> prog[k] == data[i + k]
    {
      prog[j] := data[i + j];
    }
    chunk := prog[..n];
  }

  /** Main result on reads: the bytes of the flat memory from the address on, and nothing is changed. */
  method ReadMemoryBlock(mpu: Mpu, dataSize: nat, bank0: byte, address0: byte) returns (data: seq<byte>)
    requires mpu.Valid() && dataSize < 0x1_0000
    modifies mpu`bankSel, mpu`memStart, mpu`transfers
    ensures mpu.Valid()
    ensures data == ReadFlat(mpu.Memory(), FlatAddress(bank0, address0), dataSize)
    ensures InBanksFrom(mpu.transfers, |old(mpu.transfers)|) && old(mpu.transfers) <= mpu.transfers
  {
    var bank, address := bank0, address0;
    ghost var start := FlatAddress(bank0, address0);
    Seek(mpu, bank, address);
    data := [];
    var i := 0;
    while i < dataSize
      invariant mpu.Valid() && 0 <= i <= dataSize
      invariant i < dataSize ==> FlatAddress(bank, address) % MEMORY_SIZE == (start + i) % MEMORY_SIZE
      invariant i < dataSize ==> mpu.memStart == address && mpu.Cell() == FlatAddress(bank, address) % MEMORY_SIZE
      invariant data == ReadFlat(mpu.Memory(), start, i)
      invariant InBanksFrom(mpu.transfers, |old(mpu.transfers)|) && old(mpu.transfers) <= mpu.transfers
    {
      var chunkSize := ChunkSize(dataSize - i, address);
      ghost var cell := mpu.Cell();
      var chunk := mpu.ReadBytes(chunkSize);
      ReadFlatMod(mpu.Memory(), cell, start + i, chunkSize);
      ReadFlatConcat(mpu.Memory(), start, i, chunkSize);
      data := data + chunk;
      bank, address := Advance(mpu, bank, address, chunkSize, i + chunkSize < dataSize, start + i);
      i := i + chunkSize;
    }
  }

  lemma ReadFlatConcat(mem: seq<byte>, start: nat, i: nat, n: nat)
    requires |mem| == MEMORY_SIZE
    ensures ReadFlat(mem, start, i) + ReadFlat(mem, start + i, n) == ReadFlat(mem, start, i + n)
  {
    var l, r := ReadFlat(mem, start, i) + ReadFlat(mem, start + i, n), ReadFlat(mem, start, i + n);
    forall k | 0 <= k < i + n
      ensures l[k] == r[k]
    {
      if k >= i {
        assert start + i + (k - i) == start + k;
      }
    }
  }
}
