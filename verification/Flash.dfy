/**
 NOR flash as the OTA storage classes use it: erasing makes cells blank, programming needs blank cells, and a blank
 cell reads 0xff. Also the buffered staging of a byte stream over it, on values.
 */
module Flash {
  import opened Bytes
  import opened Multiples

  datatype Cell = Blank | Data(value: byte)

  function Value(c: Cell): byte {
    if c.Blank? then 0xFF else c.value
  }

  predicate IsBlank(f: seq<Cell>, start: int, n: int) {
    0 <= start && 0 <= n && start + n <= |f| && forall i :: start <= i < start + n ==> f[i] == Blank
  }

  function Erased(f: seq<Cell>, start: nat, n: nat): (r: seq<Cell>)
    ensures |r| == |f|
    ensures forall i :: 0 <= i < |f| ==> r[i] == if start <= i < start + n then Blank else f[i]
  {
    seq(|f|, i requires 0 <= i < |f| => if start <= i < start + n then Blank else f[i])
  }

  /** The flash with `bs` in the cells from `start` on. */
  function Written(f: seq<Cell>, start: nat, bs: seq<byte>): (r: seq<Cell>)
    requires start + |bs| <= |f|
    ensures |r| == |f|
    ensures forall i :: 0 <= i < |f| ==> r[i] == if start <= i < start + |bs| then Data(bs[i - start]) else f[i]
  {
    seq(|f|, i requires 0 <= i < |f| => if start <= i < start + |bs| then Data(bs[i - start]) else f[i])
  }

  /** A flash chip: both operations report failure and change nothing when they cannot be done. */
  class Chip {
    const cells: array<Cell>

    constructor (size: nat)
      ensures cells.Length == size && fresh(cells)
    {
      cells := new Cell[size](i => Blank);
    }

    method Erase(start: nat, pages: nat, pageSize: nat) returns (ok: bool)
      modifies cells
      ensures ok <==> start + pages * pageSize <= cells.Length
      ensures cells[..] == if ok then Erased(old(cells[..]), start, pages * pageSize) else old(cells[..])
    {
      var n := pages * pageSize;
      ok := start + n <= cells.Length;
      if ok {
        for i := start to start + n
          invariant forall k :: 0 <= k < cells.Length ==>
            cells[k] == if start <= k < i then Blank else old(cells[k])
        {
          cells[i] := Blank;
        }
      }
    }

    method Program(start: nat, data: array<byte>) returns (ok: bool)
      requires data as object != cells
      modifies cells
      ensures ok <==> IsBlank(old(cells[..]), start, data.Length)
      ensures cells[..] == if ok then Written(old(cells[..]), start, data[..]) else old(cells[..])
    {
      ok := start + data.Length <= cells.Length;
      if !ok {
        return;
      }
      for i := 0 to data.Length
        invariant forall k :: start <= k < start + i ==> cells[k] == Blank
      {
        if cells[start + i] != Blank {
          assert cells[..][start + i] != Blank;
          ok := false;
          return;
        }
      }
      assert IsBlank(cells[..], start, data.Length);
      for i := 0 to data.Length
        invariant forall k :: 0 <= k < cells.Length ==>
          cells[k] == if start <= k < start + i then Data(data[k - start]) else old(cells[k])
      {
        cells[start + i] := Data(data[i]);
      }
    }
  }

  // ---------------------------------------------------------------- staging

  /** A byte stream on its way into flash: whole units are programmed, the rest waits. */
  datatype Stage = Stage(flash: seq<Cell>, partial: seq<byte>, addr: nat)

  function Put(st: Stage, b: byte, unit: nat): (r: Stage)
    ensures |st.partial| < unit ==> |r.partial| < unit
  {
    var unitBytes := st.partial + [b];
    if |unitBytes| != unit then st.(partial := unitBytes)
    else if IsBlank(st.flash, st.addr, unit) then Stage(Written(st.flash, st.addr, unitBytes), [], st.addr + unit)
    else st.(partial := [])
  }

  function PutAll(st: Stage, bs: seq<byte>, unit: nat): (r: Stage)
    ensures |st.partial| < unit ==> |r.partial| < unit
  {
    if bs == [] then st else Put(PutAll(st, bs[..|bs| - 1], unit), bs[|bs| - 1], unit)
  }

  lemma PutAllSnoc(st: Stage, bs: seq<byte>, b: byte, unit: nat)
    ensures PutAll(st, bs + [b], unit) == Put(PutAll(st, bs, unit), b, unit)
  {
    assert (bs + [b])[..|bs|] == bs;
  }

  lemma {:induction false} PutAllConcat(st: Stage, s: seq<byte>, t: seq<byte>, unit: nat)
    ensures PutAll(st, s + t, unit) == PutAll(PutAll(st, s, unit), t, unit)
    decreases |t|
  {
    hide Put;
    if t == [] {
      assert s + t == s;
    } else {
      var k := |t| - 1;
      assert s + t == (s + t[..k]) + [t[k]];
      PutAllSnoc(st, s + t[..k], t[k], unit);
      PutAllConcat(st, s, t[..k], unit);
    }
  }

  /** Flash contents plus the partial unit are the stream; nothing outside the stream's cells has changed. */
  ghost predicate Staged(f: seq<Cell>, base: nat, unit: nat, bs: seq<byte>, st: Stage) {
    && |st.partial| < unit && |st.partial| <= |bs|
    && st.addr == base + |bs| - |st.partial|
    && Multiple(|bs| - |st.partial|, unit)
    && base + |bs| <= |f| && base + (|bs| - |st.partial|) <= |f|
    && st.partial == bs[|bs| - |st.partial|..]
    && st.flash == Written(f, base, bs[..|bs| - |st.partial|])
  }

  lemma StagedPut(f: seq<Cell>, base: nat, unit: nat, bs: seq<byte>, st: Stage, b: byte)
    requires unit > 0 && Staged(f, base, unit, bs, st) && IsBlank(f, base, |bs| + 1)
    ensures Staged(f, base, unit, bs + [b], Put(st, b, unit))
  {
    var k := |bs| - |st.partial|;
    var q: nat :| k == q * unit;
    var bs' := bs + [b];
    assert bs'[k..] == st.partial + [b] && bs'[..k] == bs[..k];
    if |st.partial| + 1 == unit {
      assert k + unit == (q + 1) * unit;
      assert bs'[..k + unit] == bs' && bs'[k + unit..] == [];
      assert IsBlank(st.flash, st.addr, unit);
      assert Written(st.flash, st.addr, bs'[k..]) == Written(f, base, bs');
    }
  }

  /** The staging invariant, over any run of writes that stays within the erased range. */
  lemma {:induction false} StagedAll(f: seq<Cell>, base: nat, unit: nat, bs: seq<byte>)
    requires unit > 0 && IsBlank(f, base, |bs|)
    ensures Staged(f, base, unit, bs, PutAll(Stage(f, [], base), bs, unit))
  {
    if bs == [] {
      assert Written(f, base, []) == f;
      assert |bs| - 0 == 0 * unit;
    } else {
      var k := |bs| - 1;
      StagedAll(f, base, unit, bs[..k]);
      StagedPut(f, base, unit, bs[..k], PutAll(Stage(f, [], base), bs[..k], unit), bs[k]);
      assert bs[..k] + [bs[k]] == bs;
    }
  }

  function Fill(n: nat): seq<byte> {
    seq(n, i => 0xFF)
  }
}
