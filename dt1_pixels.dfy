/** The two pixel unpackers of the DT1 block decoder (ReadBlockGraphics in
    OpenDiablo2.Common/Models/MPQDT1.cs): each fills a fresh, zero-filled
    32x32 buffer of palette indices, stored row-major at x + y*32, from the
    bytes at the reader's cursor. */
module Dt1Pixels {
  import opened Runtime
  import opened BinaryReader

  // ---------------------------------------------------------------------------
  // Diamond ("3D isometric") blocks, Format == 1

  /** Column of the first byte on each diamond row, as the decoder's literal table lists it. */
  const XStartTable: seq<int> := [14, 12, 10, 8, 6, 4, 2, 0, 2, 4, 6, 8, 10, 12, 14]
  /** Number of bytes on each diamond row, as the decoder's literal table lists it. */
  const RunLengthTable: seq<int> := [4, 8, 12, 16, 20, 24, 28, 32, 28, 24, 20, 16, 12, 8, 4]

  /** The first table in closed form: row y starts 2*|7 - y| columns in. */
  function XStart(y: int): int {
    if y <= 7 then 14 - 2 * y else 2 * y - 14
  }

  /** The second table in closed form: each row is centred in the 32 columns. */
  function RunLength(y: int): int {
    32 - 2 * XStart(y)
  }

  /** The closed forms agree with the literal tables on every row. */
  lemma {:induction false} TablesClosedForm(y: int)
    requires 0 <= y < 15
    ensures |XStartTable| == |RunLengthTable| == 15
    ensures XStartTable[y] == XStart(y) && RunLengthTable[y] == RunLength(y)
  {
    assert y == 0 || y == 1 || y == 2 || y == 3 || y == 4 || y == 5 || y == 6 || y == 7 ||
           y == 8 || y == 9 || y == 10 || y == 11 || y == 12 || y == 13 || y == 14;
  }

  /** Payload offset of the first byte of row y: the run lengths of the rows above it. */
  function RowStart(y: nat): nat
    requires y <= 15
  {
    if y == 0 then 0 else RowStart(y - 1) + RunLength(y - 1)
  }

  /** Payload bytes on rows y..14. */
  function RowsFrom(y: nat): nat
    requires y <= 15
    decreases 15 - y
  {
    if y == 15 then 0 else RunLength(y) + RowsFrom(y + 1)
  }

  /** The fifteen run lengths add up to exactly the 256 bytes a diamond block must hold. */
  lemma {:induction false} RunLengthsSum()
    ensures RowStart(15) == 256
  {
    assert RowStart(4) == 40;
    assert RowStart(8) == 144;
    assert RowStart(12) == 232;
  }

  lemma {:induction false} RowStartPlusRest(y: nat)
    requires y <= 15
    ensures RowStart(y) + RowsFrom(y) == 256
    decreases 15 - y
  {
    if y < 15 {
      RowStartPlusRest(y + 1);
    } else {
      RunLengthsSum();
    }
  }

  /** Row y of the diamond: its bytes fit in the row and in the payload. */
  lemma {:induction false} RowShape(y: nat)
    requires y < 15
    ensures 0 < RunLength(y) && 0 <= XStart(y) && XStart(y) + RunLength(y) <= 32
    ensures RowStart(y) + RunLength(y) <= 256
  {
    RowStartPlusRest(y);
  }

  /** Index of column x of row y in the row-major buffer, `x + (y * 32)`. */
  function Cell(x: int, y: int): int {
    x + y * 32
  }

  /** Cell(x, y) lies in row y at column x. */
  lemma {:induction false} ColumnRow(x: int, y: int)
    requires 0 <= x < 32
    ensures Cell(x, y) / 32 == y && Cell(x, y) % 32 == x
  {
  }

  lemma {:induction false} RowStartMonotonic(a: nat, b: nat)
    requires a <= b <= 15
    ensures RowStart(a) <= RowStart(b)
  {
    if a < b {
      RowStartMonotonic(a, b - 1);
    }
  }

  /** Payload offset of the byte stored at column x of row y, or -1 outside the diamond. */
  function SlotAt(y: int, x: int): (k: int)
    requires 0 <= y
    ensures -1 <= k < 256
  {
    if y < 15 && XStart(y) <= x < XStart(y) + RunLength(y) then
      RowShape(y);
      RowStart(y) + (x - XStart(y))
    else
      -1
  }

  /** Payload offset of the byte the diamond unpacking stores at pixel index i,
      or -1 when i lies outside the diamond. */
  function DiamondSlot(i: int): (k: int)
    requires 0 <= i < 1024
    ensures -1 <= k < 256
  {
    SlotAt(i / 32, i % 32)
  }

  /** The slot of pixel Cell(x, y) is the slot of column x of row y. */
  lemma {:induction false} SlotOfPixel(y: int, x: int)
    requires 0 <= y < 32 && 0 <= x < 32
    ensures 0 <= Cell(x, y) < 1024
    ensures DiamondSlot(Cell(x, y)) == SlotAt(y, x)
  {
    ColumnRow(x, y);
  }

  /** The buffer a diamond block decodes to: every payload byte at its slot, 0 elsewhere. */
  function DiamondPixels(payload: seq<byte>): (px: seq<int>)
    requires |payload| == 256
    ensures |px| == 1024
  {
    seq(1024, i requires 0 <= i < 1024 =>
      var k := DiamondSlot(i); if k < 0 then 0 else payload[k])
  }

  /** Decoding a diamond block whose payload starts at `start`. */
  function Diamond(data: seq<byte>, start: nat): (r: Result<seq<int>>)
    ensures r.Success? <==> start + 256 <= |data|
    ensures r.Failure? ==> r.error == EndOfStream
    ensures r.Success? ==> |r.value| == 1024
    ensures r.Success? ==> forall k :: 0 <= k < 256 ==> r.value[DiamondIndex(k)] == data[start + k]
  {
    if start + 256 <= |data| then
      DiamondPlacesAll(data[start .. start + 256]);
      Success(DiamondPixels(data[start .. start + 256]))
    else
      Failure(EndOfStream)
  }

  /** The byte at payload offset k, or 0 once the stream has ended. */
  function PayloadByte(data: seq<byte>, start: nat, k: int): int {
    if 0 <= k && start + k < |data| then data[start + k] else 0
  }

  /** The payload byte at offset k is the stream byte at position start + k. */
  lemma {:induction false} PayloadAt(data: seq<byte>, start: nat, k: int, p: nat)
    requires 0 <= k && p == start + k && p < |data|
    ensures PayloadByte(data, start, k) == data[p]
  {
  }

  /** Pixel i has been reached once the unpacking stands at column x of row y. */
  predicate Reached(i: int, y: int, x: int) {
    i / 32 < y || (i / 32 == y && i % 32 < x)
  }

  /** The buffer holds every payload byte whose pixel has been reached, and 0 elsewhere. */
  ghost predicate Filled(px: seq<int>, data: seq<byte>, start: nat, y: int, x: int) {
    |px| == 1024 &&
    forall i :: 0 <= i < 1024 ==>
      px[i] == (if DiamondSlot(i) >= 0 && Reached(i, y, x) then PayloadByte(data, start, DiamondSlot(i)) else 0)
  }

  /** The k-th byte of row y is stored at column XStart(y) + k of row y. */
  lemma {:induction false} DiamondPlacement(y: nat, k: int)
    requires y < 15 && 0 <= k < RunLength(y)
    ensures 0 <= Cell(XStart(y) + k, y) < 1024
    ensures DiamondSlot(Cell(XStart(y) + k, y)) == RowStart(y) + k
  {
    RowShape(y);
    SlotOfPixel(y, XStart(y) + k);
  }

  /** Storing the next payload byte at column x of row y extends the filled region by one pixel. */
  lemma {:induction false} FilledStore(px: seq<int>, data: seq<byte>, start: nat, y: nat, x: int)
    requires y < 15 && XStart(y) <= x < XStart(y) + RunLength(y)
    requires Filled(px, data, start, y, x)
    ensures 0 <= Cell(x, y) < 1024
    ensures Filled(px[Cell(x, y) := PayloadByte(data, start, RowStart(y) + x - XStart(y))], data, start, y, x + 1)
  {
    DiamondPlacement(y, x - XStart(y));
    var idx := Cell(x, y);
    var px' := px[idx := PayloadByte(data, start, RowStart(y) + x - XStart(y))];
    forall i | 0 <= i < 1024
      ensures px'[i] == (if DiamondSlot(i) >= 0 && Reached(i, y, x + 1) then PayloadByte(data, start, DiamondSlot(i)) else 0)
    {
      if i != idx {
        assert Reached(i, y, x + 1) == Reached(i, y, x);
      }
    }
  }

  /** Columns before XStart(y) lie outside the diamond. */
  lemma {:induction false} FilledRowStart(px: seq<int>, data: seq<byte>, start: nat, y: nat)
    requires y < 15
    requires Filled(px, data, start, y, 0)
    ensures Filled(px, data, start, y, XStart(y))
  {
    forall i | 0 <= i < 1024 && DiamondSlot(i) >= 0
      ensures Reached(i, y, XStart(y)) == Reached(i, y, 0)
    {
    }
  }

  /** Columns after the last byte of row y lie outside the diamond. */
  lemma {:induction false} FilledRowEnd(px: seq<int>, data: seq<byte>, start: nat, y: nat)
    requires y < 15
    requires Filled(px, data, start, y, XStart(y) + RunLength(y))
    ensures Filled(px, data, start, y + 1, 0)
  {
    forall i | 0 <= i < 1024 && DiamondSlot(i) >= 0
      ensures Reached(i, y + 1, 0) == Reached(i, y, XStart(y) + RunLength(y))
    {
    }
  }

  /** Once all fifteen rows are done, the buffer is the diamond of the payload. */
  lemma {:induction false} FilledDone(px: seq<int>, data: seq<byte>, start: nat)
    requires start + 256 <= |data|
    requires Filled(px, data, start, 15, 0)
    ensures px == DiamondPixels(data[start .. start + 256])
  {
    var payload := data[start .. start + 256];
    forall i | 0 <= i < 1024
      ensures px[i] == DiamondPixels(payload)[i]
    {
    }
  }

  /** One store of the inner loop: the next payload byte goes to column x of row y. */
  method StorePixel(br: Reader, pixels: array<int>, y: int, x: int, ghost start: nat) returns (r: Result<()>)
    requires 0 <= y < 15 && XStart(y) <= x < XStart(y) + RunLength(y)
    requires br.pos == start + RowStart(y) + x - XStart(y)
    requires Filled(pixels[..], br.data, start, y, x)
    modifies br, pixels
    ensures r.Success? ==> br.pos == old(br.pos) + 1 <= |br.data| && Filled(pixels[..], br.data, start, y, x + 1)
    ensures r.Failure? ==> r == Failure(EndOfStream) && |br.data| <= old(br.pos)
  {
    ghost var p := br.pos;
    var b := br.ReadByte();
    if b.Failure? {
      return Failure(b.error);
    }
    ghost var before := pixels[..];
    FilledStore(before, br.data, start, y, x);
    PayloadAt(br.data, start, RowStart(y) + x - XStart(y), p);
    pixels[Cell(x, y)] := b.value;
    assert pixels[..] == before[Cell(x, y) := b.value];
    return Success(());
  }

  /** The inner loop for row y: the row's RunLength(y) bytes go to consecutive
      columns from XStart(y) on. Fails only when the stream ends inside the row. */
  method UnpackDiamondRow(br: Reader, pixels: array<int>, y: int, ghost start: nat) returns (r: Result<()>)
    requires 0 <= y < 15 && br.pos == start + RowStart(y)
    requires Filled(pixels[..], br.data, start, y, 0)
    modifies br, pixels
    ensures r.Success? ==> br.pos == start + RowStart(y) + RunLength(y) <= |br.data|
    ensures r.Success? ==> Filled(pixels[..], br.data, start, y + 1, 0)
    ensures r.Failure? ==> r == Failure(EndOfStream) && |br.data| < start + RowStart(y) + RunLength(y)
  {
    RowShape(y);
    TablesClosedForm(y);
    var x := XStartTable[y];
    var n := RunLengthTable[y];
    FilledRowStart(pixels[..], br.data, start, y);
    while n > 0
      invariant 0 <= n <= RunLength(y)
      invariant x == XStart(y) + RunLength(y) - n
      invariant br.pos == start + RowStart(y) + RunLength(y) - n
      invariant n < RunLength(y) ==> br.pos <= |br.data|
      invariant Filled(pixels[..], br.data, start, y, x)
    {
      r := StorePixel(br, pixels, y, x, start);
      if r.Failure? {
        return;
      }
      x := x + 1;
      n := n - 1;
    }
    FilledRowEnd(pixels[..], br.data, start, y);
    return Success(());
  }

  method UnpackDiamond(br: Reader) returns (r: Result<seq<int>>)
    modifies br
    ensures r == Diamond(br.data, old(br.pos))
    ensures r.Success? ==> br.pos == old(br.pos) + 256
  {
    ghost var start := br.pos;
    var pixels := new int[1024](_ => 0);
    var y := 0;
    var length := 256;
    while length > 0
      invariant 0 <= y <= 15
      invariant length == 256 - RowStart(y)
      invariant br.pos == start + RowStart(y)
      invariant y > 0 ==> br.pos <= |br.data|
      invariant Filled(pixels[..], br.data, start, y, 0)
    {
      if y == 15 {
        RunLengthsSum();
      }
      RowShape(y);
      length := length - RunLength(y);
      var row := UnpackDiamondRow(br, pixels, y, start);
      if row.Failure? {
        return Failure(row.error);
      }
      y := y + 1;
    }
    if y < 15 {
      RowShape(y);
      assert false;
    }
    assert y == 15;
    RunLengthsSum();
    FilledDone(pixels[..], br.data, start);
    return Success(pixels[..]);
  }

  // ---------------------------------------------------------------------------
  // Properties of the diamond layout

  /** Every diamond pixel lies in rows 0..14, at an index between 14 and 465. */
  lemma {:induction false} DiamondFootprint(i: int)
    requires 0 <= i < 1024 && DiamondSlot(i) >= 0
    ensures i / 32 < 15 && 14 <= i <= 465
  {
  }

  /** Pixels outside the footprint keep the 0 the buffer was created with. */
  lemma {:induction false} DiamondOutsideIsZero(payload: seq<byte>, i: int)
    requires |payload| == 256 && 0 <= i < 1024
    requires i < 14 || 465 < i || i / 32 >= 15
    ensures DiamondPixels(payload)[i] == 0
  {
    if DiamondSlot(i) >= 0 {
      DiamondFootprint(i);
    }
  }

  /** Row of the diamond that payload byte k belongs to, searching from row y. */
  function RowOf(k: int, y: nat): (row: nat)
    requires y < 15 && RowStart(y) <= k < RowStart(y) + RowsFrom(y)
    ensures y <= row < 15 && RowStart(row) <= k < RowStart(row) + RunLength(row)
    decreases 15 - y
  {
    if k < RowStart(y) + RunLength(y) then
      y
    else
      assert RowStart(y + 1) == RowStart(y) + RunLength(y);
      assert y + 1 < 15;
      RowOf(k, y + 1)
  }

  /** Pixel at which payload byte k is stored when k lies on row y. */
  function CellOf(k: int, y: nat): int
    requires y <= 15
  {
    Cell(XStart(y) + (k - RowStart(y)), y)
  }

  lemma {:induction false} CellOfSlot(k: int, y: nat)
    requires y < 15 && RowStart(y) <= k < RowStart(y) + RunLength(y)
    ensures 0 <= CellOf(k, y) < 1024 && DiamondSlot(CellOf(k, y)) == k
  {
    DiamondPlacement(y, k - RowStart(y));
  }

  /** Pixel index at which payload byte k is stored. */
  function DiamondIndex(k: int): (i: int)
    requires 0 <= k < 256
    ensures 0 <= i < 1024
  {
    RowStartPlusRest(0);
    var y := RowOf(k, 0);
    CellOfSlot(k, y);
    CellOf(k, y)
  }

  /** Payload byte k is stored at pixel DiamondIndex(k). */
  lemma {:induction false} DiamondIndexSlot(k: int)
    requires 0 <= k < 256
    ensures DiamondSlot(DiamondIndex(k)) == k
  {
    RowStartPlusRest(0);
    CellOfSlot(k, RowOf(k, 0));
  }

  /** Two cells of the grid never receive the same payload byte. */
  lemma {:induction false} SlotAtInjective(y1: int, x1: int, y2: int, x2: int)
    requires 0 <= y1 && 0 <= y2
    requires SlotAt(y1, x1) >= 0 && SlotAt(y1, x1) == SlotAt(y2, x2)
    ensures y1 == y2 && x1 == x2
  {
    if y1 < y2 {
      RowShape(y1);
      RowStartMonotonic(y1 + 1, y2);
      assert false;
    } else if y2 < y1 {
      RowShape(y2);
      RowStartMonotonic(y2 + 1, y1);
      assert false;
    }
  }

  /** Two pixels never receive the same payload byte. */
  lemma {:induction false} DiamondSlotInjective(i: int, j: int)
    requires 0 <= i < 1024 && 0 <= j < 1024
    requires DiamondSlot(i) >= 0 && DiamondSlot(i) == DiamondSlot(j)
    ensures i == j
  {
    SlotAtInjective(i / 32, i % 32, j / 32, j % 32);
  }

  /** The unpacking is a bijection between the 256 payload bytes and the
      footprint: byte k is stored at DiamondIndex(k) and nowhere else. */
  lemma {:induction false} DiamondBijection(payload: seq<byte>, k: int, i: int)
    requires |payload| == 256 && 0 <= k < 256 && 0 <= i < 1024
    ensures DiamondPixels(payload)[DiamondIndex(k)] == payload[k]
    ensures DiamondSlot(i) == k <==> i == DiamondIndex(k)
  {
    DiamondIndexSlot(k);
    if DiamondSlot(i) == k {
      DiamondSlotInjective(i, DiamondIndex(k));
    }
  }

  /** Bytes 0..255 unpacked: byte 0 lands at index 14, byte 3 at 17, byte 4 at 44. */
  /** Every payload byte sits at its computed cell. */
  lemma {:induction false} DiamondPlacesAll(payload: seq<byte>)
    requires |payload| == 256
    ensures forall k :: 0 <= k < 256 ==> DiamondPixels(payload)[DiamondIndex(k)] == payload[k]
  {
    forall k | 0 <= k < 256
      ensures DiamondPixels(payload)[DiamondIndex(k)] == payload[k]
    {
      DiamondBijection(payload, k, 0);
    }
  }

  lemma {:induction false} DiamondExample()
    ensures var px := DiamondPixels(seq(256, k requires 0 <= k < 256 => k as byte));
      px[14] == 0 && px[17] == 3 && px[44] == 4 && px[13] == 0 && px[466] == 0
    ensures DiamondSlot(14) == 0 && DiamondSlot(17) == 3 && DiamondSlot(44) == 4
    ensures DiamondSlot(13) == -1 && DiamondSlot(466) == -1
  {
    assert DiamondSlot(44) == 4 by {
      assert 44 / 32 == 1 && 44 % 32 == 12;
    }
  }

  // ---------------------------------------------------------------------------
  // Run-length blocks, any other Format

  /** A fresh buffer, as `new Int16[32 * 32]` creates it. */
  function Blank(): (px: seq<int>)
    ensures |px| == 1024 && forall i :: 0 <= i < 1024 ==> px[i] == 0
  {
    seq(1024, _ => 0)
  }

  /** Index `x + (y * 32)` as the decoder computes it, in unchecked Int32 arithmetic. */
  function PixelIndex(x: int, y: int): int {
    Wrap32(x + Wrap32(y * 32))
  }

  /** Without wrap-around the store index is the plain row-major cell x + 32y. */
  lemma {:induction false} PixelIndexPlain(x: int, y: int)
    requires -0x1000_0000 <= x <= 0x1000_0000 && -0x100_0000 <= y < 0x100_0000
    ensures PixelIndex(x, y) == x + 32 * y
  {
    Wrap32Identity(y * 32);
    Wrap32Identity(x + y * 32);
  }

  /** The unpacker between two pairs: cursor, bytes still to consume, column, row, buffer. */
  datatype RleState = RleState(pos: nat, remaining: int, x: int, y: int, pixels: seq<int>)

  /** Copy of a run: `count` bytes from `pos` on, stored at consecutive columns from x on row y.
      Yields the cursor, the column and the buffer afterwards. */
  function RleCopy(data: seq<byte>, pos: nat, count: nat, x: int, y: int, pixels: seq<int>): (r: Result<(nat, int, seq<int>)>)
    requires |pixels| == 1024
    ensures r.Success? ==> r.value.0 == pos + count && |r.value.2| == 1024
    decreases count
  {
    if count == 0 then
      Success((pos, x, pixels))
    else
      var b :- ReadByteAt(data, pos);
      var i := PixelIndex(x, y);
      if !(0 <= i < 1024) then
        Failure(IndexOutOfRange(i))
      else
        RleCopy(data, pos + 1, count - 1, Wrap32(x + 1), y, pixels[i := b])
  }

  /** One pass of the outer loop: an end-of-row pair (0, 0) moves to column 0 of
      the next row; any other pair (b1, b2) skips b1 columns and copies a run of b2 bytes. */
  function RleStep(data: seq<byte>, s: RleState): (r: Result<RleState>)
    requires |s.pixels| == 1024
    ensures r.Success? ==> |r.value.pixels| == 1024 && r.value.remaining <= s.remaining - 2
  {
    var b1 :- ReadByteAt(data, s.pos);
    var b2 :- ReadByteAt(data, s.pos + 1);
    if b1 + b2 == 0 then
      Success(RleState(s.pos + 2, s.remaining - 2, 0, Wrap32(s.y + 1), s.pixels))
    else
      var c :- RleCopy(data, s.pos + 2, b2, Wrap32(s.x + b1), s.y, s.pixels);
      Success(RleState(c.0, s.remaining - 2 - b2, c.1, s.y, c.2))
  }

  /** The outer loop of the run-length unpacker, from state s until the remaining length is <= 0. */
  function RleFrom(data: seq<byte>, s: RleState): (r: Result<RleState>)
    requires |s.pixels| == 1024
    ensures r.Success? ==> |r.value.pixels| == 1024
    decreases if s.remaining > 0 then s.remaining else 0
  {
    if s.remaining <= 0 then
      Success(s)
    else
      var t :- RleStep(data, s);
      RleFrom(data, t)
  }

  /** A pass on a skip/run pair (b1, b2) other than (0, 0): the run copy from column s.x + b1. */
  lemma {:induction false} RleStepRun(data: seq<byte>, s: RleState)
    requires |s.pixels| == 1024 && s.pos + 2 <= |data| && data[s.pos] as int + data[s.pos + 1] != 0
    ensures var c := RleCopy(data, s.pos + 2, data[s.pos + 1], Wrap32(s.x + data[s.pos]), s.y, s.pixels);
      RleStep(data, s) ==
        if c.Failure? then Failure(c.error)
        else Success(RleState(c.value.0, s.remaining - 2 - data[s.pos + 1], c.value.1, s.y, c.value.2))
  {
  }

  /** A pass of the outer loop followed by the rest of the loop. */
  lemma {:induction false} RleFromStep(data: seq<byte>, s: RleState)
    requires |s.pixels| == 1024 && s.remaining > 0
    ensures RleFrom(data, s) == match RleStep(data, s)
      case Failure(e) => Failure(e)
      case Success(t) => RleFrom(data, t)
  {
  }

  /** Decoding a run-length block of the given length whose payload starts at `start`. */
  function Rle(data: seq<byte>, start: nat, length: int): Result<RleState> {
    RleFrom(data, RleState(start, length, 0, 0, Blank()))
  }

  function RlePixels(data: seq<byte>, start: nat, length: int): (r: Result<seq<int>>)
    ensures r.Success? ==> |r.value| == 1024
    ensures length <= 0 ==> r == Success(Blank())
  {
    var s :- Rle(data, start, length);
    Success(s.pixels)
  }

  /** The inner loop: copies a run of `count` bytes to consecutive columns from x on row y.
      Returns the column after the run. */
  method CopyRun(br: Reader, pixels: array<int>, count: int, x: int, y: int) returns (r: Result<int>)
    requires pixels.Length == 1024 && 0 <= count
    modifies br, pixels
    ensures var c := RleCopy(br.data, old(br.pos), count, x, y, old(pixels[..]));
      if c.Failure? then r == Failure(c.error)
      else r == Success(c.value.1) && br.pos == c.value.0 && pixels[..] == c.value.2
  {
    ghost var copy := RleCopy(br.data, br.pos, count, x, y, pixels[..]);
    var n := count;
    var col := x;
    while n > 0
      invariant 0 <= n
      invariant RleCopy(br.data, br.pos, n, col, y, pixels[..]) == copy
    {
      var b :- br.ReadByte();
      var i := PixelIndex(col, y);
      if !(0 <= i < 1024) {
        return Failure(IndexOutOfRange(i));
      }
      pixels[i] := b;
      col := Wrap32(col + 1);
      n := n - 1;
    }
    return Success(col);
  }

  /** One pass of the outer loop: reads a pair and either ends the row or copies a run.
      Returns the remaining length, the column and the row afterwards. */
  method RlePass(br: Reader, pixels: array<int>, remaining: int, x: int, y: int) returns (r: Result<(int, int, int)>)
    requires pixels.Length == 1024
    modifies br, pixels
    ensures var t := RleStep(br.data, RleState(old(br.pos), remaining, x, y, old(pixels[..])));
      if t.Failure? then r == Failure(t.error)
      else r == Success((t.value.remaining, t.value.x, t.value.y)) && br.pos == t.value.pos && pixels[..] == t.value.pixels
  {
    ghost var s := RleState(br.pos, remaining, x, y, pixels[..]);
    var b1 :- br.ReadByte();
    var b2 :- br.ReadByte();
    if b1 as int + b2 == 0 {
      return Success((remaining - 2, 0, Wrap32(y + 1)));
    }
    RleStepRun(br.data, s);
    var col :- CopyRun(br, pixels, b2, Wrap32(x + b1), y);
    return Success((remaining - 2 - b2, col, y));
  }

  method UnpackRle(br: Reader, length: int) returns (r: Result<seq<int>>)
    modifies br
    ensures r == RlePixels(br.data, old(br.pos), length)
    ensures r.Success? ==> br.pos == Rle(br.data, old(br.pos), length).value.pos
  {
    ghost var goal := Rle(br.data, br.pos, length);
    var remaining := length;
    var x := 0;
    var y := 0;
    var pixels := new int[1024](_ => 0);
    assert pixels[..] == Blank();
    while remaining > 0
      invariant RleFrom(br.data, RleState(br.pos, remaining, x, y, pixels[..])) == goal
    {
      RleFromStep(br.data, RleState(br.pos, remaining, x, y, pixels[..]));
      var t :- RlePass(br, pixels, remaining, x, y);
      remaining, x, y := t.0, t.1, t.2;
    }
    return Success(pixels[..]);
  }

  // ---------------------------------------------------------------------------
  // Properties of the run-length unpacker

  /** One pass consumes two bytes plus the run, and the remaining length drops by as much. */
  lemma {:induction false} RleStepAccounting(data: seq<byte>, s: RleState)
    requires |s.pixels| == 1024
    ensures var r := RleStep(data, s);
      r.Success? ==>
        (r.value.pos - s.pos == s.remaining - r.value.remaining
         && s.remaining - 257 <= r.value.remaining <= s.remaining - 2)
  {
    if s.pos + 2 <= |data| && data[s.pos] as int + data[s.pos + 1] != 0 {
      RleStepRun(data, s);
    }
  }

  /** The unpacker consumes exactly the block length minus the final remainder; with a
      positive length the remainder ends between -256 and 0, and a length <= 0 reads nothing. */
  lemma {:induction false} RleAccounting(data: seq<byte>, s: RleState)
    requires |s.pixels| == 1024
    ensures var r := RleFrom(data, s);
      r.Success? ==> r.value.remaining <= 0 && r.value.pos - s.pos == s.remaining - r.value.remaining
    ensures var r := RleFrom(data, s);
      r.Success? && s.remaining > 0 ==> -256 <= r.value.remaining
    ensures s.remaining <= 0 ==> RleFrom(data, s) == Success(s)
    decreases if s.remaining > 0 then s.remaining else 0
  {
    if s.remaining > 0 {
      RleFromStep(data, s);
      RleStepAccounting(data, s);
      var t := RleStep(data, s);
      if t.Success? {
        RleAccounting(data, t.value);
      }
    }
  }

  /** Without Int32 wrap-around, a run copy writes bytes pos.. pos+count-1 to the cells
      x+32y .. x+32y+count-1 and leaves every other cell alone; it succeeds exactly when
      the run lies inside the stream and inside the 1024-cell buffer. */
  lemma {:induction false} RleCopyContents(data: seq<byte>, pos: nat, count: nat, x: int, y: int, pixels: seq<int>)
    requires |pixels| == 1024
    requires -0x1000_0000 <= x && x + count <= 0x1000_0000 && -0x100_0000 <= y < 0x100_0000
    ensures var r := RleCopy(data, pos, count, x, y, pixels);
      r.Success? <==> count == 0 || (pos + count <= |data| && 0 <= x + 32 * y && x + 32 * y + count <= 1024)
    ensures var r := RleCopy(data, pos, count, x, y, pixels);
      r.Success? ==>
        (r.value.1 == x + count &&
         forall j :: 0 <= j < 1024 ==>
           r.value.2[j] == if x + 32 * y <= j < x + 32 * y + count then data[pos + (j - x - 32 * y)] else pixels[j])
    decreases count
  {
    if count > 0 {
      Wrap32Identity(y * 32);
      Wrap32Identity(x + y * 32);
      Wrap32Identity(x + 1);
      assert PixelIndex(x, y) == x + 32 * y;
      if pos < |data| && 0 <= x + 32 * y < 1024 {
        var i := x + 32 * y;
        RleCopyContents(data, pos + 1, count - 1, x + 1, y, pixels[i := data[pos]]);
      }
    }
  }

  /** An end-of-row pair (0, 0) writes nothing, moves to column 0 of the next row and
      takes 2 from the remaining length. */
  lemma {:induction false} RleEndOfRow(data: seq<byte>, s: RleState)
    requires |s.pixels| == 1024 && s.pos + 2 <= |data| && data[s.pos] == 0 && data[s.pos + 1] == 0
    requires 0 <= s.y < 0x100_0000
    ensures RleStep(data, s) == Success(RleState(s.pos + 2, s.remaining - 2, 0, s.y + 1, s.pixels))
  {
    Wrap32Identity(s.y + 1);
  }

  /** Any other pair (b1, b2) moves the column b1 places right and copies the next b2 stream
      bytes to consecutive cells from x + b1 + 32y on, leaving every other cell alone; the
      remaining length drops by 2 + b2. The pass fails exactly when the run does not fit in
      the stream or in the buffer. */
  lemma {:induction false} RleRunPair(data: seq<byte>, s: RleState)
    requires |s.pixels| == 1024 && s.pos + 2 <= |data| && data[s.pos] as int + data[s.pos + 1] != 0
    requires 0 <= s.x <= 0x100_0000 && 0 <= s.y < 0x100_0000
    ensures var b1, b2 := data[s.pos] as int, data[s.pos + 1] as int;
      var base := s.x + b1 + 32 * s.y;
      var r := RleStep(data, s);
      (r.Success? <==> b2 == 0 || (s.pos + 2 + b2 <= |data| && base + b2 <= 1024)) &&
      (r.Success? ==>
        r.value.pos == s.pos + 2 + b2 && r.value.remaining == s.remaining - 2 - b2 &&
        r.value.x == s.x + b1 + b2 && r.value.y == s.y &&
        forall j :: 0 <= j < 1024 ==>
          r.value.pixels[j] == if base <= j < base + b2 then data[s.pos + 2 + (j - base)] else s.pixels[j])
  {
    var b1, b2 := data[s.pos], data[s.pos + 1];
    Wrap32Identity(s.x + b1);
    RleStepRun(data, s);
    RleCopyContents(data, s.pos + 2, b2, s.x + b1, s.y, s.pixels);
  }

  /** Skip 2, copy 3 bytes of 9, then end the row: cells 2..4 of row 0 are set and the
      decoder stands at column 0 of row 1 with nothing left. */
  lemma RleExample()
    ensures var r := Rle([2, 3, 9, 9, 9, 0, 0], 0, 7);
      r.Success? && r.value.pos == 7 && r.value.remaining == 0 && r.value.x == 0 && r.value.y == 1
      && r.value.pixels[1] == 0 && r.value.pixels[2] == 9 && r.value.pixels[3] == 9 && r.value.pixels[4] == 9 && r.value.pixels[5] == 0
  {
    var data: seq<byte> := [2, 3, 9, 9, 9, 0, 0];
    assert data[0] == 2 && data[1] == 3 && data[2] == data[3] == data[4] == 9 && data[5] == data[6] == 0;
    RleExampleFrom(data, Blank());
  }

  lemma RleExampleFrom(data: seq<byte>, px: seq<int>)
    requires |data| == 7 && |px| == 1024
    requires data[0] == 2 && data[1] == 3 && data[2] == data[3] == data[4] == 9 && data[5] == data[6] == 0
    ensures var r := RleFrom(data, RleState(0, 7, 0, 0, px));
      r.Success? && r.value.pos == 7 && r.value.remaining == 0 && r.value.x == 0 && r.value.y == 1
      && r.value.pixels[1] == px[1] && r.value.pixels[2] == 9 && r.value.pixels[3] == 9 && r.value.pixels[4] == 9 && r.value.pixels[5] == px[5]
  {
    var s0 := RleState(0, 7, 0, 0, px);
    Wrap32Identity(2);
    Wrap32Identity(1);
    RleCopyContents(data, 2, 3, 2, 0, px);
    var c := RleCopy(data, 2, 3, 2, 0, px).value;
    RleStepRun(data, s0);
    var s1 := RleState(5, 2, 5, 0, c.2);
    assert RleStep(data, s0) == Success(s1);
    RleFromStep(data, s0);
    RleFromStep(data, s1);
    var s2 := RleState(7, 0, 0, 1, c.2);
    assert RleStep(data, s1) == Success(s2);
    assert RleFrom(data, s2) == Success(s2);
    assert RleFrom(data, s0) == Success(s2);
  }

  /** A run longer than the bytes left in the block is still copied in full: a block of
      length 2 whose first pair is (0, 3) consumes five bytes and ends with remainder -3. */
  lemma RleOverrunExample()
    ensures var r := Rle([0, 3, 7, 7, 7], 0, 2);
      r.Success? && r.value.pos == 5 && r.value.remaining == -3 && r.value.pixels[2] == 7
  {
    var data: seq<byte> := [0, 3, 7, 7, 7];
    var s0 := RleState(0, 2, 0, 0, Blank());
    RleCopyContents(data, 2, 3, 0, 0, Blank());
    RleStepRun(data, s0);
    RleFromStep(data, s0);
  }

  /** A pair (b1, 0) with b1 > 0 copies nothing and only moves the column b1 places right. */
  lemma {:induction false} RleSkip(data: seq<byte>, s: RleState)
    requires |s.pixels| == 1024 && s.remaining > 0
    requires s.pos + 2 <= |data| && data[s.pos] > 0 && data[s.pos + 1] == 0
    ensures RleFrom(data, s) == RleFrom(data, RleState(s.pos + 2, s.remaining - 2, Wrap32(s.x + data[s.pos]), s.y, s.pixels))
  {
    RleFromStep(data, s);
    RleStepRun(data, s);
  }

  /** Skips are not bounded by the row width: five skips of 255 reach cell 1275, and the
      store there fails with an out-of-range index. */
  lemma RleOutOfBufferExample()
    ensures Rle([255, 0, 255, 0, 255, 0, 255, 0, 255, 1, 5], 0, 11) == Failure(IndexOutOfRange(1275))
  {
    var data: seq<byte> := [255, 0, 255, 0, 255, 0, 255, 0, 255, 1, 5];
    assert data[0] == data[2] == data[4] == data[6] == data[8] == 255;
    assert data[1] == data[3] == data[5] == data[7] == 0 && data[9] == 1;
    RleOutOfBufferFrom(data, Blank());
  }

  lemma RleOutOfBufferFrom(data: seq<byte>, px: seq<int>)
    requires |data| == 11 && |px| == 1024
    requires data[0] == data[2] == data[4] == data[6] == data[8] == 255
    requires data[1] == data[3] == data[5] == data[7] == 0 && data[9] == 1
    ensures RleFrom(data, RleState(0, 11, 0, 0, px)) == Failure(IndexOutOfRange(1275))
  {
    Wrap32Identity(255);
    Wrap32Identity(510);
    Wrap32Identity(765);
    Wrap32Identity(1020);
    Wrap32Identity(1275);
    RleSkip(data, RleState(0, 11, 0, 0, px));
    RleSkip(data, RleState(2, 9, 255, 0, px));
    RleSkip(data, RleState(4, 7, 510, 0, px));
    RleSkip(data, RleState(6, 5, 765, 0, px));
    var s := RleState(8, 3, 1020, 0, px);
    RleFromStep(data, s);
    RleStepRun(data, s);
    RleCopyContents(data, 10, 1, 1275, 0, px);
    PixelIndexPlain(1275, 0);
  }
}
