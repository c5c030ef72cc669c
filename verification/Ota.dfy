/**
 Over-the-air updates: InternalStorageRenesas.cpp, the page variant of InternalStorageSTM32.cpp (the same class with
 a programming unit of four bytes), and the upload protocol of WiFiOTA.cpp in front of them.
 */
module Ota {
  import opened Bytes
  import opened Flash
  import opened Multiples
  import opened OtaRequest

  /** The constants of a board: flash size, where the sketch starts, the page size and the programming unit. */
  datatype Board = Board(maxFlash: nat, sketch: nat, page: nat, unit: nat)

  ghost predicate ValidBoard(b: Board) {
    && b.sketch <= b.maxFlash && 0 < b.page && 0 < b.unit < 256
    && Multiple(b.page, b.unit)
  }

  /** The copying of the Renesas class: its buffer of 16 units divides a page. */
  ghost predicate CopiesBlocks(b: Board) {
    Multiple(b.page, 16 * b.unit)
  }

  /** The room for a sketch: half of the flash behind the start of the sketch, in whole pages. */
  ghost function MaxSketchSize(b: Board): nat
    requires ValidBoard(b)
  {
    Pages((b.maxFlash - b.sketch) / 2, b.page)
  }

  /** x rounded down to whole pages. */
  function Pages(x: nat, page: nat): (r: nat)
    requires page > 0
    ensures r <= x < r + page
    ensures Multiple(r, page)
  {
    var q: nat := x / page;
    assert x == q * page + x % page;
    q * page
  }

  ghost function StorageStart(b: Board): nat
    requires ValidBoard(b)
  {
    b.sketch + MaxSketchSize(b)
  }

  /** `pageAlignedLength`: at least one byte more than `length`. */
  ghost function PageAligned(b: Board, length: nat): nat
    requires ValidBoard(b)
  {
    Pages(length, b.page) + b.page
  }

  /** `open` accepts this length. */
  ghost predicate Accepted(b: Board, length: nat)
    requires ValidBoard(b)
  {
    length <= MaxSketchSize(b) && StorageStart(b) + PageAligned(b, length) <= b.maxFlash
  }

  /** The room is the largest whole number of pages that fits twice behind the start of the sketch. */
  lemma RoomIsHalf(b: Board)
    requires ValidBoard(b)
    ensures var room := MaxSketchSize(b);
      && Multiple(room, b.page)
      && 2 * room <= b.maxFlash - b.sketch < 2 * (room + b.page)
      && StorageStart(b) == b.sketch + room
  {
  }

  /** A length is rounded up to whole pages, and to one page more if it is whole already. */
  lemma AlignedAbove(b: Board, length: nat)
    requires ValidBoard(b)
    ensures length < PageAligned(b, length) <= length + b.page && Multiple(PageAligned(b, length), b.page)
  {
    PageAlignedIsPages(b, length);
  }

  lemma PageAlignedIsPages(b: Board, length: nat)
    requires ValidBoard(b)
    ensures Multiple(PageAligned(b, length), b.page)
  {
    var q: nat :| Pages(length, b.page) == q * b.page;
    assert PageAligned(b, length) == (q + 1) * b.page;
  }

  lemma UnitsPerPage(b: Board, n: nat, unit: nat)
    requires Multiple(n, b.page) && Multiple(b.page, unit)
    ensures Multiple(n, unit)
  {
    var q: nat :| n == q * b.page;
    var k: nat :| b.page == k * unit;
    assert n == q * (k * unit) == (q * k) * unit;
  }

  lemma ErasedBlank(f: seq<Cell>, start: nat, n: nat)
    requires start + n <= |f|
    ensures IsBlank(Erased(f, start, n), start, n)
  {
  }

  lemma FewerBlank(f: seq<Cell>, start: nat, m: nat, n: nat)
    requires IsBlank(f, start, m) && n <= m
    ensures IsBlank(f, start, n)
  {
  }

  /** One page more than are full. */
  function PageCount(length: nat, page: nat): nat
    requires page > 0
  {
    length / page + 1
  }

  lemma PagesErased(n: nat, page: nat)
    requires page > 0 && Multiple(n, page)
    ensures PageCount(n, page) * page == n + page
  {
    var q: nat :| n == q * page;
    DivUnique(n, q, 0, page);
  }

  class Storage {
    const board: Board
    const chip: Chip
    const buffer: array<byte>
    const maxSketchSize: nat
    const storageStartAddress: nat
    var pageAlignedLength: nat
    var writeIndex: byte
    var flashWriteAddress: nat

    ghost predicate Valid()
      reads this
    {
      && ValidBoard(board)
      && chip.cells.Length == board.maxFlash && buffer.Length == board.unit && buffer as object != chip.cells
      && maxSketchSize == MaxSketchSize(board) && storageStartAddress == StorageStart(board)
      && writeIndex < board.unit
    }

    ghost function Staging(): Stage
      requires Valid()
      reads this, chip.cells, buffer
    {
      Stage(chip.cells[..], buffer[..writeIndex], flashWriteAddress)
    }

    constructor (board: Board, chip: Chip)
      requires ValidBoard(board) && chip.cells.Length == board.maxFlash
      ensures Valid() && this.board == board && this.chip == chip && fresh(buffer)
      ensures pageAlignedLength == 0 && Staging() == Stage(chip.cells[..], [], StorageStart(board))
    {
      this.board, this.chip := board, chip;
      buffer := new byte[board.unit](i => 0);
      var size := Pages((board.maxFlash - board.sketch) / 2, board.page);
      maxSketchSize := size;
      storageStartAddress := board.sketch + size;
      pageAlignedLength := 0;
      writeIndex := 0;
      flashWriteAddress := board.sketch + size;
      new;
      assert buffer[..0] == [];
    }

    /** Erases room for `length` bytes; `length` is compared as an unsigned number, so a negative one is too large. */
    method Open(length: int) returns (ok: bool)
      requires Valid()
      modifies this, chip.cells
      ensures Valid()
      ensures ok <==> 0 <= length && Accepted(board, length)
      ensures ok ==> pageAlignedLength == PageAligned(board, length)
      ensures ok ==> Staging() == Stage(Erased(old(chip.cells[..]), StorageStart(board), pageAlignedLength), [],
                                        StorageStart(board))
      ensures !ok ==> chip.cells[..] == old(chip.cells[..])
    {
      if length < 0 || length > maxSketchSize {
        return false;
      }
      var pageCount := PageCount(length, board.page);
      pageAlignedLength := pageCount * board.page;
      assert pageAlignedLength == length / board.page * board.page + board.page;
      flashWriteAddress := storageStartAddress;
      writeIndex := 0;
      ok := chip.Erase(storageStartAddress, pageCount, board.page);
    }

    /** Programs the full buffer. */
    method Program() returns (ok: bool)
      requires Valid()
      modifies `flashWriteAddress, chip.cells
      ensures ok <==> IsBlank(old(chip.cells[..]), old(flashWriteAddress), board.unit)
      ensures chip.cells[..] == if ok then Written(old(chip.cells[..]), old(flashWriteAddress), buffer[..])
                                else old(chip.cells[..])
      ensures flashWriteAddress == if ok then old(flashWriteAddress) + board.unit else old(flashWriteAddress)
    {
      ok := chip.Program(flashWriteAddress, buffer);
      if ok {
        flashWriteAddress := flashWriteAddress + board.unit;
      }
    }

    /** Stages a byte; false if programming a full unit failed. */
    method Write(b: byte) returns (ok: bool)
      requires Valid()
      modifies `writeIndex, `flashWriteAddress, buffer, chip.cells
      ensures Valid() && Staging() == Put(old(Staging()), b, board.unit)
    {
      hide MaxSketchSize, StorageStart, Multiple, IsBlank;
      buffer[writeIndex] := b;
      assert buffer[..writeIndex + 1] == old(buffer[..writeIndex]) + [b];
      writeIndex := writeIndex + 1;
      ok := true;
      if writeIndex == board.unit {
        assert buffer[..] == buffer[..writeIndex];
        writeIndex := 0;
        ok := Program();
      }
    }

    /** Fills the last unit with fewer than `unit` bytes of 0xff. */
    method Close() returns (ghost pad: seq<byte>)
      requires Valid()
      modifies `writeIndex, `flashWriteAddress, buffer, chip.cells
      ensures Valid() && writeIndex == 0
      ensures pad == Fill(|pad|) && |pad| == (if old(writeIndex) == 0 then 0 else board.unit - old(writeIndex))
      ensures Staging() == PutAll(old(Staging()), pad, board.unit)
    {
      pad := [];
      while writeIndex != 0
        invariant Valid() && pad == Fill(|pad|) && Staging() == PutAll(old(Staging()), pad, board.unit)
        invariant if writeIndex == 0 then |pad| == (if old(writeIndex) == 0 then 0 else board.unit - old(writeIndex))
                  else writeIndex == old(writeIndex) + |pad|
        decreases if writeIndex == 0 then 0 else board.unit - writeIndex
      {
        PutAllSnoc(old(Staging()), pad, 0xFF, board.unit);
        var ok := Write(0xFF);
        pad := pad + [0xFF];
      }
    }

    /** Reads `buff.Length` cells. */
    method ReadCells(from: nat, buff: array<byte>)
      requires from + buff.Length <= chip.cells.Length && buff as object != chip.cells
      modifies buff
      ensures buff[..] == Values(chip.cells[..], from, buff.Length)
    {
      var s := from;
      for i := 0 to buff.Length
        invariant s == from + i
        invariant forall k :: 0 <= k < i ==> buff[k] == Values(chip.cells[..], from, buff.Length)[k]
      {
        buff[i] := Value(chip.cells[s]);
        s := s + 1;
      }
    }

    /** Copies a buffer of cells. */
    method CopyBlock(buff: array<byte>, to: nat, from: nat) returns (rv: bool)
      requires from + buff.Length <= chip.cells.Length && buff as object != chip.cells
      modifies chip.cells, buff
      ensures rv <==> IsBlank(old(chip.cells[..]), to, buff.Length)
      ensures rv ==> chip.cells[..] == Written(old(chip.cells[..]), to, Values(old(chip.cells[..]), from, buff.Length))
    {
      ReadCells(from, buff);
      rv := chip.Program(to, buff);
    }

    /** The copy loop, a buffer at a time. */
    method CopyBlocks(buff: array<byte>, dest: nat, src: nat, length: nat)
      requires buff.Length > 0 && Multiple(length, buff.Length) && buff as object != chip.cells
      requires dest + buff.Length <= src && src + length <= chip.cells.Length && IsBlank(chip.cells[..], dest, length)
      modifies chip.cells, buff
      ensures chip.cells[..] == Copied(old(chip.cells[..]), dest, src, length)
    {
      ghost var e := chip.cells[..];
      CopiedNothing(e, dest, src);
      hide *;
      var rv := true;
      var left: nat, to: nat, from: nat := length, dest, src;
      ghost var done: nat := 0;
      while rv && left > 0
        invariant rv && done + left == length && to == dest + done && from == src + done
        invariant Multiple(left, buff.Length)
        invariant chip.cells[..] == Copied(e, dest, src, done)
        decreases left
      {
        OneLess(left, buff.Length);
        CopyStep(e, dest, src, done, length, buff.Length);
        done := done + buff.Length;
        rv := CopyBlock(buff, to, from);
        from := from + buff.Length;
        to := to + buff.Length;
        left := left - buff.Length;
      }
    }

    /** Copies the storage over the sketch; the reset that follows is not modelled. */
    method CopyFlash(dest: nat, src: nat, length: nat)
      requires Valid() && CopiesBlocks(board)
      requires Multiple(length, board.page)
      requires dest + 16 * board.unit <= src && src + length <= board.maxFlash
      modifies chip.cells
      ensures chip.cells[..] ==
        if dest + (length + board.page) <= board.maxFlash
        then Copied(Erased(old(chip.cells[..]), dest, length + board.page), dest, src, length)
        else old(chip.cells[..])
    {
      var pageCount := PageCount(length, board.page);
      PagesErased(length, board.page);
      UnitsPerPage(board, length, 16 * board.unit);
      hide PageCount, Multiple, Copied, IsBlank;
      var buff := new byte[16 * board.unit](i => 0);
      var rv := chip.Erase(dest, pageCount, board.page);
      if rv {
        ErasedBlank(old(chip.cells[..]), dest, length + board.page);
        FewerBlank(chip.cells[..], dest, length + board.page, length);
        CopyBlocks(buff, dest, src, length);
      }
    }

    /** Replaces the sketch by what is staged. */
    method Apply()
      requires Valid() && CopiesBlocks(board) && Multiple(pageAlignedLength, board.page) && 0 < maxSketchSize
      requires storageStartAddress + pageAlignedLength <= board.maxFlash
      modifies chip.cells
      ensures chip.cells[..] == Applied(board, old(chip.cells[..]), pageAlignedLength)
    {
      RoomForABlock(board);
      CopyFlash(board.sketch, storageStartAddress, pageAlignedLength);
    }
  }

  lemma RoomForABlock(b: Board)
    requires ValidBoard(b) && CopiesBlocks(b) && 0 < MaxSketchSize(b)
    ensures 16 * b.unit <= b.page <= MaxSketchSize(b)
  {
    OneLess(b.page, 16 * b.unit);
    var q: nat :| MaxSketchSize(b) == q * b.page;
    OneLess(MaxSketchSize(b), b.page);
  }

  /** The flash after `apply`: nothing happens when there is no room to erase one page more than is copied. */
  ghost function Applied(b: Board, f: seq<Cell>, aligned: nat): seq<Cell>
    requires ValidBoard(b) && |f| == b.maxFlash && StorageStart(b) + aligned <= b.maxFlash
  {
    if b.sketch + (aligned + b.page) <= b.maxFlash
    then Copied(Erased(f, b.sketch, aligned + b.page), b.sketch, StorageStart(b), aligned)
    else f
  }

  /** What `n` cells read. */
  function Values(f: seq<Cell>, from: nat, n: nat): (r: seq<byte>)
    requires from + n <= |f|
    ensures |r| == n && forall k :: 0 <= k < n ==> r[k] == Value(f[from + k])
  {
    seq<byte>(n, k requires 0 <= k < n => Value(f[from + k]))
  }

  /** The flash `e` after its cells from `dest` on have received what the cells from `src` on read in `e`. */
  function Copied(e: seq<Cell>, dest: nat, src: nat, n: nat): seq<Cell>
    requires dest <= src && src + n <= |e|
  {
    Written(e, dest, Values(e, src, n))
  }

  lemma CopiedNothing(e: seq<Cell>, dest: nat, src: nat)
    requires dest <= src <= |e|
    ensures Copied(e, dest, src, 0) == e
  {
  }

  /** One more block: its target is still blank, its source still unchanged. */
  lemma CopyStep(e: seq<Cell>, dest: nat, src: nat, n: nat, length: nat, block: nat)
    requires n + block <= length && dest + block <= src && src + length <= |e| && IsBlank(e, dest, length)
    ensures var c := Copied(e, dest, src, n);
      && IsBlank(c, dest + n, block)
      && Written(c, dest + n, Values(c, src + n, block)) == Copied(e, dest, src, n + block)
  {
    var c := Copied(e, dest, src, n);
    assert Values(c, src + n, block) == Values(e, src + n, block);
    assert Values(e, src, n) + Values(e, src + n, block) == Values(e, src, n + block);
  }

  // ---------------------------------------------------------------- what an update does

  /** Closing pads the stream to whole units, all within the erased range. */
  lemma {:induction false} Closed(f: seq<Cell>, base: nat, unit: nat, room: nat, bs: seq<byte>, pad: seq<byte>)
    requires unit > 0 && IsBlank(f, base, room) && Multiple(room, unit) && |bs| <= room
    requires var st := PutAll(Stage(f, [], base), bs, unit);
      pad == Fill(if st.partial == [] then 0 else unit - |st.partial|)
    ensures |pad| < unit && |bs| + |pad| <= room && |bs + pad| % unit == 0
    ensures PutAll(PutAll(Stage(f, [], base), bs, unit), pad, unit)
            == Stage(Written(f, base, bs + pad), [], base + |bs| + |pad|)
  {
    StagedAll(f, base, unit, bs);
    var st := PutAll(Stage(f, [], base), bs, unit);
    Padded(|bs|, |st.partial|, |pad|, unit, room);
    StagedAll(f, base, unit, bs + pad);
    PutAllConcat(Stage(f, [], base), bs, pad, unit);
    var st' := PutAll(Stage(f, [], base), bs + pad, unit);
    hide Multiple, PutAll;
    WholeUnits(|bs + pad|, |st'.partial|, unit);
    assert (bs + pad)[..|bs + pad|] == bs + pad;
  }

  lemma MultipleMod(q: nat, d: nat)
    requires d > 0
    ensures (q * d) % d == 0
  {
    DivUnique(q * d, q, 0, d);
  }

  /** Padding a stream of n bytes, of which `part` wait, to the end of the unit. */
  lemma Padded(n: nat, part: nat, pad: nat, unit: nat, room: nat)
    requires part < unit && part <= n <= room && Multiple(n - part, unit) && Multiple(room, unit)
    requires pad == if part == 0 then 0 else unit - part
    ensures pad < unit && n + pad <= room && (n + pad) % unit == 0
  {
    var q: nat :| n - part == q * unit;
    var p: nat :| room == p * unit;
    MultipleMod(q, unit);
    if part != 0 {
      NextUnitFits(n - part, room, q, p, unit);
      MultipleMod(q + 1, unit);
      assert (q + 1) * unit == q * unit + unit;
    }
  }

  /** A remainder smaller than the unit, of a stream of whole units cut at a whole unit, is empty. */
  lemma WholeUnits(n: nat, rest: nat, unit: nat)
    requires unit > 0 && n % unit == 0 && rest < unit && rest <= n && Multiple(n - rest, unit)
    ensures rest == 0
  {
    var q: nat :| n - rest == q * unit;
    DivUnique(n, q, rest, unit);
  }

  /** Byte i of the padded image: the stream, then 0xff. */
  function Image(stream: seq<byte>, i: nat): byte {
    if i < |stream| then stream[i] else 0xFF
  }

  /** The flash after opening, staging the stream with its padding, closing and applying. */
  ghost function Updated(b: Board, f: seq<Cell>, stream: seq<byte>, pad: seq<byte>): seq<Cell>
    requires ValidBoard(b) && |f| == b.maxFlash && Accepted(b, |stream|)
    requires |stream| + |pad| <= PageAligned(b, |stream|)
  {
    var aligned := PageAligned(b, |stream|);
    Applied(b, Written(Erased(f, StorageStart(b), aligned), StorageStart(b), stream + pad), aligned)
  }

  /** How far the page erased beyond the copied ones reaches into the storage. */
  ghost function Overlap(b: Board, length: nat): int
    requires ValidBoard(b)
  {
    PageAligned(b, length) + b.page - MaxSketchSize(b)
  }

  ghost predicate CopyFits(b: Board, length: nat)
    requires ValidBoard(b)
  {
    b.sketch + (PageAligned(b, length) + b.page) <= b.maxFlash
  }

  /** For every accepted length but 0 there is room to erase one page more than is copied. */
  lemma CopyRoom(b: Board, length: nat)
    requires ValidBoard(b) && Accepted(b, length) && 0 < length
    ensures CopyFits(b, length)
  {
    OneLess(MaxSketchSize(b), b.page);
  }

  lemma StagedValue(b: Board, f: seq<Cell>, stream: seq<byte>, pad: seq<byte>, i: nat)
    requires ValidBoard(b) && |f| == b.maxFlash && Accepted(b, |stream|)
    requires |stream| + |pad| <= PageAligned(b, |stream|) && pad == Fill(|pad|) && i < PageAligned(b, |stream|)
    ensures var s := StorageStart(b);
      Value(Written(Erased(f, s, PageAligned(b, |stream|)), s, stream + pad)[s + i]) == Image(stream, i)
  {
  }

  lemma CopiedCell(g: seq<Cell>, dest: nat, src: nat, n: nat, erased: nat, i: nat)
    requires dest <= src && src + n <= |g| && i < n
    ensures Copied(Erased(g, dest, erased), dest, src, n)[dest + i]
            == Data(if src + i < dest + erased then 0xFF else Value(g[src + i]))
  {
    var e := Erased(g, dest, erased);
    assert Values(e, src, n)[i] == Value(e[src + i]);
  }

  lemma UpdatedCell(b: Board, f: seq<Cell>, stream: seq<byte>, pad: seq<byte>, i: nat)
    requires ValidBoard(b) && |f| == b.maxFlash && Accepted(b, |stream|) && (stream == [] ==> CopyFits(b, 0))
    requires |stream| + |pad| <= PageAligned(b, |stream|) && i < PageAligned(b, |stream|)
    ensures var s, a := StorageStart(b), PageAligned(b, |stream|);
      Updated(b, f, stream, pad)[b.sketch + i]
      == Data(if s + i < b.sketch + (a + b.page) then 0xFF
              else Value(Written(Erased(f, s, a), s, stream + pad)[s + i]))
  {
    if stream != [] {
      CopyRoom(b, |stream|);
    }
    var s, a := StorageStart(b), PageAligned(b, |stream|);
    CopiedCell(Written(Erased(f, s, a), s, stream + pad), b.sketch, s, a, a + b.page, i);
  }

  lemma OverlapIs(b: Board, length: nat, i: nat)
    requires ValidBoard(b)
    ensures StorageStart(b) + i < b.sketch + (PageAligned(b, length) + b.page) <==> i < Overlap(b, length)
  {
  }

  /** Every cell of the copied range, whatever the length: the image, except where the copy erased its own source. */
  lemma UpdateFormula(b: Board, f: seq<Cell>, stream: seq<byte>, pad: seq<byte>, i: nat)
    requires ValidBoard(b) && |f| == b.maxFlash && Accepted(b, |stream|) && (stream == [] ==> CopyFits(b, 0))
    requires |stream| + |pad| <= PageAligned(b, |stream|) && pad == Fill(|pad|)
    requires i < PageAligned(b, |stream|)
    ensures Updated(b, f, stream, pad)[b.sketch + i]
            == Data(if i < Overlap(b, |stream|) then 0xFF else Image(stream, i))
  {
    UpdatedCell(b, f, stream, pad, i);
    StagedValue(b, f, stream, pad, i);
    OverlapIs(b, |stream|, i);
    hide *;
  }

  /** The overlap is empty exactly for the lengths below the maximum by more than a page. */
  lemma {:induction false} OverlapExact(b: Board, length: nat)
    requires ValidBoard(b)
    ensures Overlap(b, length) <= 0 <==> length < MaxSketchSize(b) - b.page
    ensures length < MaxSketchSize(b) - b.page ==> Accepted(b, length) && CopyFits(b, length)
  {
    var p: nat :| MaxSketchSize(b) == p * b.page;
    var q: nat :| Pages(length, b.page) == q * b.page;
    assert (q + 1) * b.page == PageAligned(b, length);
    assert (q + 2) * b.page == PageAligned(b, length) + b.page;
    if length < MaxSketchSize(b) - b.page {
      if p < q + 2 {
        MulMono(p, q + 1, b.page);
      }
      MulMono(q + 2, p, b.page);
    }
    assert StorageStart(b) + MaxSketchSize(b) <= b.maxFlash;
  }

  /**
   Main result on updates: below the maximum by more than a page, the sketch region ends up holding the stream and
   then 0xff up to a page boundary; nothing outside the sketch and storage regions changes.
   */
  lemma {:induction false} UpdateCorrect(b: Board, f: seq<Cell>, stream: seq<byte>, pad: seq<byte>)
    requires ValidBoard(b) && |f| == b.maxFlash && |stream| < MaxSketchSize(b) - b.page
    requires |stream| + |pad| <= PageAligned(b, |stream|) && pad == Fill(|pad|)
    ensures Accepted(b, |stream|)
    ensures var r := Updated(b, f, stream, pad);
      && (forall i :: 0 <= i < PageAligned(b, |stream|) ==> r[b.sketch + i] == Data(Image(stream, i)))
      && (forall i :: 0 <= i < b.sketch || StorageStart(b) + MaxSketchSize(b) <= i < |f| ==> r[i] == f[i])
  {
    OverlapExact(b, |stream|);
    forall i | 0 <= i < PageAligned(b, |stream|)
      ensures Updated(b, f, stream, pad)[b.sketch + i] == Data(Image(stream, i))
    {
      UpdateFormula(b, f, stream, pad, i);
    }
  }

  ghost predicate SketchIs(b: Board, f: seq<Cell>, stream: seq<byte>)
    requires |f| == b.maxFlash
  {
    b.sketch + |stream| <= |f| && forall i :: 0 <= i < |stream| ==> Value(f[b.sketch + i]) == stream[i]
  }

  lemma SketchCells(b: Board, f: seq<Cell>, stream: seq<byte>)
    requires |f| == b.maxFlash && b.sketch + |stream| <= |f|
    ensures SketchIs(b, f, stream) <==> forall i :: 0 <= i < |stream| ==> Value(f[b.sketch + i]) == stream[i]
  {
  }

  lemma RoomForSketch(b: Board, length: nat)
    requires ValidBoard(b) && Accepted(b, length)
    ensures b.sketch + length <= b.maxFlash
  {
  }

  lemma RightAt(b: Board, f: seq<Cell>, stream: seq<byte>, pad: seq<byte>, i: nat)
    requires ValidBoard(b) && |f| == b.maxFlash && Accepted(b, |stream|) && i < |stream|
    requires |stream| + |pad| <= PageAligned(b, |stream|) && pad == Fill(|pad|)
    ensures |Updated(b, f, stream, pad)| == b.maxFlash && b.sketch + i < b.maxFlash
    ensures Value(Updated(b, f, stream, pad)[b.sketch + i]) == stream[i]
      <==> (i < Overlap(b, |stream|) ==> stream[i] == 0xFF)
  {
    UpdateFormula(b, f, stream, pad, i);
  }

  /**
   Exactly when an accepted update is right: at or above that length the copy erases the beginning of its own source,
   so the update is right only for images that begin with 0xff there.
   */
  lemma {:induction false} UpdateExact(b: Board, f: seq<Cell>, stream: seq<byte>, pad: seq<byte>)
    requires ValidBoard(b) && |f| == b.maxFlash && Accepted(b, |stream|)
    requires |stream| + |pad| <= PageAligned(b, |stream|) && pad == Fill(|pad|)
    ensures SketchIs(b, Updated(b, f, stream, pad), stream)
      <==> |stream| < MaxSketchSize(b) - b.page
           || forall i :: 0 <= i < |stream| && i < Overlap(b, |stream|) ==> stream[i] == 0xFF
  {
    OverlapExact(b, |stream|);
    RoomForSketch(b, |stream|);
    var r := Updated(b, f, stream, pad);
    hide *;
    forall i | 0 <= i < |stream|
      ensures 0 <= b.sketch + i < |r|
      ensures Value(r[b.sketch + i]) == stream[i] <==> (i < Overlap(b, |stream|) ==> stream[i] == 0xFF)
    {
      RightAt(b, f, stream, pad, i);
    }
    SketchCells(b, r, stream);
  }

  /** An accepted update that goes wrong: two pages of room, an image of one page that does not begin with 0xff. */
  lemma {:induction false} UpdateFails()
    ensures var b := Board(64, 0, 16, 1);
      ValidBoard(b) && CopiesBlocks(b) && Accepted(b, 16) && CopyFits(b, 16) && MaxSketchSize(b) == 32
      && forall f: seq<Cell> | |f| == 64 :: !SketchIs(b, Updated(b, f, seq(16, i => 0), []), seq(16, i => 0))
  {
    var b := Board(64, 0, 16, 1);
    assert 16 == 1 * 16;
    assert Multiple(b.page, 16 * b.unit) && 16 == 16 * 1 && Multiple(b.page, b.unit);
    assert Fill(0) == [];
    forall f: seq<Cell> | |f| == 64
      ensures !SketchIs(b, Updated(b, f, seq(16, i => 0), []), seq(16, i => 0))
    {
      var zeros: seq<byte> := seq(16, i => 0);
      UpdateFormula(b, f, zeros, [], 0);
      assert Value(Updated(b, f, zeros, [])[b.sketch + 0]) != zeros[0];
    }
  }

  // ---------------------------------------------------------------- the upload protocol

  datatype Outcome = Respond(code: nat) | Restart

  const BUFF_SIZE: nat := 64

  function Flat(pieces: seq<seq<byte>>): seq<byte> {
    if pieces == [] then [] else Flat(pieces[..|pieces| - 1]) + pieces[|pieces| - 1]
  }

  /**
   The body bytes read: while connected and short of n, everything available is taken. Each round is what the client
   has available at one pass of the outer loop, cut into the pieces `read` returned; the connection ends after the
   last round.
   */
  function Taken(rounds: seq<seq<seq<byte>>>, n: int): seq<byte>
    decreases |rounds|
  {
    if n <= 0 || rounds == [] then [] else Flat(rounds[0]) + Taken(rounds[1..], n - |Flat(rounds[0])|)
  }

  function Sent(rounds: seq<seq<seq<byte>>>): seq<byte>
    decreases |rounds|
  {
    if rounds == [] then [] else Flat(rounds[0]) + Sent(rounds[1..])
  }

  /** What is read is the beginning of what is sent, and all of it if that is no more than asked for. */
  lemma {:induction false} TakenIsPrefix(rounds: seq<seq<seq<byte>>>, n: int)
    ensures Taken(rounds, n) <= Sent(rounds)
    ensures |Sent(rounds)| <= n ==> Taken(rounds, n) == Sent(rounds)
    ensures |Taken(rounds, n)| < n ==> Taken(rounds, n) == Sent(rounds)
    decreases |rounds|
  {
    if rounds != [] && n > 0 {
      TakenIsPrefix(rounds[1..], n - |Flat(rounds[0])|);
    } else if |Sent(rounds)| <= n {
      assert Sent(rounds) == [];
    }
  }

  /** One more round. */
  lemma TakenStep(rounds: seq<seq<seq<byte>>>, i: nat, got: seq<byte>, n: int)
    requires i < |rounds| && |got| < n
    ensures got + Taken(rounds[i..], n - |got|)
            == (got + Flat(rounds[i])) + Taken(rounds[i + 1..], n - |got + Flat(rounds[i])|)
  {
    hide Flat;
    assert rounds[i..][1..] == rounds[i + 1..];
    assert n - |got| - |Flat(rounds[i])| == n - |got + Flat(rounds[i])|;
  }

  lemma TakenEnds(rounds: seq<seq<seq<byte>>>, got: seq<byte>, n: int)
    requires rounds == [] || n <= |got|
    ensures got + Taken(rounds, n - |got|) == got
  {
  }

  predicate WellCut(rounds: seq<seq<seq<byte>>>) {
    forall i, j :: 0 <= i < |rounds| && 0 <= j < |rounds[i]| ==> |rounds[i][j]| <= BUFF_SIZE
  }

  method WriteAll(storage: Storage, piece: seq<byte>)
    requires storage.Valid()
    modifies storage`writeIndex, storage`flashWriteAddress, storage.buffer, storage.chip.cells
    ensures storage.Valid() && storage.Staging() == PutAll(old(storage.Staging()), piece, storage.board.unit)
  {
    for i := 0 to |piece|
      invariant storage.Valid() && storage.Staging() == PutAll(old(storage.Staging()), piece[..i], storage.board.unit)
    {
      PutAllSnoc(old(storage.Staging()), piece[..i], piece[i], storage.board.unit);
      assert piece[..i + 1] == piece[..i] + [piece[i]];
      var ok := storage.Write(piece[i]);
    }
    assert piece[..|piece|] == piece;
  }

  /** The inner loop: everything available is read and staged. */
  method Drain(storage: Storage, pieces: seq<seq<byte>>) returns (l: nat)
    requires storage.Valid()
    modifies storage`writeIndex, storage`flashWriteAddress, storage.buffer, storage.chip.cells
    ensures storage.Valid() && l == |Flat(pieces)|
    ensures storage.Staging() == PutAll(old(storage.Staging()), Flat(pieces), storage.board.unit)
  {
    l := 0;
    for j := 0 to |pieces|
      invariant storage.Valid() && l == |Flat(pieces[..j])|
      invariant storage.Staging() == PutAll(old(storage.Staging()), Flat(pieces[..j]), storage.board.unit)
    {
      assert pieces[..j + 1][..j] == pieces[..j];
      PutAllConcat(old(storage.Staging()), Flat(pieces[..j]), pieces[j], storage.board.unit);
      WriteAll(storage, pieces[j]);
      l := l + |pieces[j]|;
    }
    assert pieces[..|pieces|] == pieces;
  }

  /** The outer loop. */
  method ReceiveBody(storage: Storage, contentLength: int, rounds: seq<seq<seq<byte>>>) returns (read: nat)
    requires storage.Valid()
    modifies storage`writeIndex, storage`flashWriteAddress, storage.buffer, storage.chip.cells
    ensures storage.Valid() && read == |Taken(rounds, contentLength)|
    ensures storage.Staging() == PutAll(old(storage.Staging()), Taken(rounds, contentLength), storage.board.unit)
  {
    hide Put, Flat, Taken;
    read := 0;
    var i := 0;
    ghost var got: seq<byte> := [];
    while i < |rounds| && read < contentLength
      invariant storage.Valid() && 0 <= i <= |rounds| && read == |got|
      invariant got + Taken(rounds[i..], contentLength - read) == Taken(rounds, contentLength)
      invariant storage.Staging() == PutAll(old(storage.Staging()), got, storage.board.unit)
    {
      PutAllConcat(old(storage.Staging()), got, Flat(rounds[i]), storage.board.unit);
      TakenStep(rounds, i, got, contentLength);
      var l := Drain(storage, rounds[i]);
      got := got + Flat(rounds[i]);
      read := read + l;
      i := i + 1;
    }
    TakenEnds(rounds[i..], got, contentLength);
  }

  /** Staging changes nothing below the address it has reached. */
  lemma {:induction false} PutAllKeeps(st: Stage, bs: seq<byte>, unit: nat, k: nat)
    requires k <= st.addr && k <= |st.flash|
    ensures var r := PutAll(st, bs, unit); k <= r.addr && |r.flash| == |st.flash| && r.flash[..k] == st.flash[..k]
    decreases |bs|
  {
    if bs != [] {
      PutAllKeeps(st, bs[..|bs| - 1], unit, k);
    }
  }

  const POST: string := "POST /sketch HTTP/1.1"

  /** The request is for a sketch, comes with the right credentials and announces a length. */
  ghost predicate Admitted(r: Request, expectedAuthorization: string) {
    r.line == POST && r.authorization == expectedAuthorization && 0 < r.contentLength
  }

  /**
   One connection: the head the client sends, then the body in rounds. The device restarts into the new sketch exactly
   when the request is right and as many body bytes as announced arrived; then the flash is the updated one for those
   bytes, and the sketch is what was sent if it is below the maximum by more than a page. Every other outcome leaves
   the running sketch as it was.
   */
  method PollServer(storage: Storage, expectedAuthorization: string, head: string, rounds: seq<seq<seq<byte>>>)
    returns (outcome: Outcome, ghost pad: seq<byte>)
    requires storage.Valid() && CopiesBlocks(storage.board) && WellCut(rounds)
    requires RequestOf(head).1 == ""
    modifies storage, storage.buffer, storage.chip.cells
    ensures storage.Valid()
    ensures
      var b, r := storage.board, RequestOf(head).0;
      var post := r.line == "POST /sketch HTTP/1.1";
      var n, body, ok := r.contentLength, Taken(rounds, r.contentLength), Admitted(r, expectedAuthorization);
      var f, f' := old(storage.chip.cells[..]), storage.chip.cells[..];
      && (outcome == Respond(404) <==> !post)
      && (outcome == Respond(401) <==> post && r.authorization != expectedAuthorization)
      && (outcome == Respond(400) <==> post && r.authorization == expectedAuthorization && n <= 0)
      && (outcome == Respond(500) <==> ok && !Accepted(b, n))
      && (outcome == Respond(414) <==> ok && Accepted(b, n) && |body| != n)
      && (outcome == Restart <==> ok && Accepted(b, n) && |body| == n)
      && (outcome == Restart ==>
            pad == Fill(|pad|) && |pad| < b.unit && n + |pad| <= PageAligned(b, n) && f' == Updated(b, f, body, pad))
      && (outcome == Restart && n < MaxSketchSize(b) - b.page ==>
            forall i :: 0 <= i < PageAligned(b, n) ==> f'[b.sketch + i] == Data(Image(body, i)))
      && (outcome != Restart ==> |f'| == |f| && f'[..StorageStart(b)] == f[..StorageStart(b)])
      && (outcome != Restart && outcome != Respond(414) ==> f' == f)
  {
    hide RequestOf, Taken, Put, IsBlank;
    pad := [];
    var request, left := ReadRequest(head);
    if request.line != POST {
      return Respond(404), pad;
    }
    if expectedAuthorization != request.authorization {
      return Respond(401), pad;
    }
    if request.contentLength <= 0 {
      return Respond(400), pad;
    }
    ghost var f := storage.chip.cells[..];
    var ok := storage.Open(request.contentLength);
    if !ok {
      return Respond(500), pad;
    }
    ghost var b, n: nat, start := storage.board, request.contentLength, storage.Staging();
    var read := ReceiveBody(storage, request.contentLength, rounds);
    ghost var body := Taken(rounds, n);
    pad := storage.Close();
    PutAllKeeps(start, body, b.unit, StorageStart(b));
    PutAllKeeps(PutAll(start, body, b.unit), pad, b.unit, StorageStart(b));
    if read != request.contentLength {
      return Respond(414), pad;
    }
    PageAlignedIsPages(b, n);
    UnitsPerPage(b, PageAligned(b, n), b.unit);
    ErasedBlank(f, StorageStart(b), PageAligned(b, n));
    Closed(start.flash, StorageStart(b), b.unit, PageAligned(b, n), body, pad);
    storage.Apply();
    if n < MaxSketchSize(b) - b.page {
      UpdateCorrect(b, f, body, pad);
    }
    return Restart, pad;
  }
}
