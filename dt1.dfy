/** The DT1 tile-set decoder (OpenDiablo2.Common/Models/MPQDT1.cs): a header,
    a table of 96-byte tile records, for each tile a table of 20-byte block
    headers, and for each block a payload unpacked into a 32x32 buffer.
    Every record is found by seeking to an offset computed in unchecked
    Int32 arithmetic; any exception aborts the whole decode. */
module Dt1 {
  import opened Runtime
  import opened BinaryReader
  import opened Dt1Pixels

  // ---------------------------------------------------------------------------
  // Decoded entities

  /** MPQDT1Block: one block of a tile. pixelData stays empty until the block's
      payload has been unpacked. */
  datatype Block = Block(
    positionX: int,
    positionY: int,
    gridX: byte,
    gridY: byte,
    format: int,
    length: int,
    fileOffset: int,
    pixelData: seq<int>)

  /** MPQDT1Tile, without its random Id. blocks stays empty until the tile's
      block headers have been read. */
  datatype Tile = Tile(
    direction: int,
    roofHeight: int,
    soundIndex: byte,
    animated: bool,
    height: int,
    width: int,
    orientation: int,
    mainIndex: int,
    subIndex: int,
    rarityOrFrameIndex: int,
    subTileFlags: seq<byte>,
    blockHeadersPointer: int,
    blockDataLength: int,
    numberOfBlocks: int,
    blocks: seq<Block>)

  /** MPQDT1 once its constructor has returned. */
  datatype TileSet = TileSet(x1: int, x2: int, numberOfTiles: int, tileHeaderOffset: int, tiles: seq<Tile>)

  // ---------------------------------------------------------------------------
  // Loops that fill a fresh array and stop at the first exception

  /** `for (i = 0; i < n; i++) a[i] = f(i);` over a fresh array of n elements:
      the elements in order, or the exception of the first f(i) that throws. */
  function Fill<T>(f: int -> Result<T>, n: nat): (r: Result<seq<T>>)
    ensures r.Success? ==> |r.value| == n
  {
    if n == 0 then
      Success([])
    else
      var front :- Fill(f, n - 1);
      var last :- f(n - 1);
      Success(front + [last])
  }

  /** The same loop over existing elements: a[i] = f(a[i]) for every i in order. */
  function MapEach<S, T>(f: S -> Result<T>, xs: seq<S>): (r: Result<seq<T>>)
    ensures r.Success? ==> |r.value| == |xs|
  {
    if |xs| == 0 then
      Success([])
    else
      var front :- MapEach(f, xs[.. |xs| - 1]);
      var last :- f(xs[|xs| - 1]);
      Success(front + [last])
  }

  /** Fill succeeds exactly when every f(i) does, and then holds f(i) at index i. */
  lemma {:induction false} FillIndexed<T>(f: int -> Result<T>, n: nat)
    ensures Fill(f, n).Success? <==> forall i :: 0 <= i < n ==> f(i).Success?
    ensures Fill(f, n).Success? ==> forall i :: 0 <= i < n ==> Fill(f, n).value[i] == f(i).value
  {
    if n > 0 {
      FillIndexed(f, n - 1);
    }
  }

  /** One more iteration of the Fill loop. */
  lemma {:induction false} FillStep<T>(f: int -> Result<T>, i: nat)
    ensures Fill(f, i + 1) ==
      match Fill(f, i)
      case Failure(e) => Failure(e)
      case Success(front) => (match f(i) case Failure(e) => Failure(e) case Success(v) => Success(front + [v]))
  {
  }

  /** Once the loop has thrown at some index, the later iterations never run. */
  lemma {:induction false} FillStops<T>(f: int -> Result<T>, i: nat, n: nat)
    requires i <= n && Fill(f, i).Failure?
    ensures Fill(f, n) == Fill(f, i)
    decreases n
  {
    if i < n {
      FillStops(f, i, n - 1);
    }
  }

  /** MapEach succeeds exactly when f succeeds on every element, and then holds f(xs[i]) at index i. */
  lemma {:induction false} MapEachIndexed<S, T>(f: S -> Result<T>, xs: seq<S>)
    ensures MapEach(f, xs).Success? <==> forall i :: 0 <= i < |xs| ==> f(xs[i]).Success?
    ensures MapEach(f, xs).Success? ==> forall i :: 0 <= i < |xs| ==> MapEach(f, xs).value[i] == f(xs[i]).value
    decreases |xs|
  {
    if |xs| > 0 {
      var front := xs[.. |xs| - 1];
      MapEachIndexed(f, front);
      assert forall i :: 0 <= i < |front| ==> front[i] == xs[i];
    }
  }

  /** One more iteration of the MapEach loop. */
  lemma {:induction false} MapEachStep<S, T>(f: S -> Result<T>, xs: seq<S>, i: nat)
    requires i < |xs|
    ensures MapEach(f, xs[.. i + 1]) ==
      match MapEach(f, xs[.. i])
      case Failure(e) => Failure(e)
      case Success(front) => (match f(xs[i]) case Failure(e) => Failure(e) case Success(v) => Success(front + [v]))
  {
    assert xs[.. i + 1][.. i] == xs[.. i];
  }

  /** Once the MapEach loop has thrown at some index, the later iterations never run. */
  lemma {:induction false} MapEachStops<S, T>(f: S -> Result<T>, xs: seq<S>, i: nat)
    requires i <= |xs| && MapEach(f, xs[.. i]).Failure?
    ensures MapEach(f, xs) == MapEach(f, xs[.. i])
    decreases |xs|
  {
    if i < |xs| {
      var front := xs[.. |xs| - 1];
      assert front[.. i] == xs[.. i];
      MapEachStops(f, front, i);
    } else {
      assert xs[.. i] == xs;
    }
  }

  /** Inside a loop over an array whose first i elements are done: element i is still the original. */
  lemma {:induction false} Pending<T>(done: seq<T>, orig: seq<T>, i: nat, current: seq<T>)
    requires |done| == i < |orig| && current == done + orig[i..]
    ensures |current| == |orig| && current[i] == orig[i]
  {
  }

  /** Storing the result for element i extends the done prefix by one. */
  lemma {:induction false} Advance<T>(done: seq<T>, orig: seq<T>, i: nat, v: T, before: seq<T>, after: seq<T>)
    requires |done| == i < |orig| && before == done + orig[i..] && after == before[i := v]
    ensures after == (done + [v]) + orig[i + 1 ..]
  {
    assert forall k :: 0 <= k < |after| ==> after[k] == ((done + [v]) + orig[i + 1 ..])[k];
  }

  /** Storing element i of a fresh array extends its filled prefix by one. */
  lemma {:induction false} Extend<T>(before: seq<T>, i: nat, v: T, after: seq<T>)
    requires i < |before| && after == before[i := v]
    ensures after[.. i + 1] == before[.. i] + [v]
  {
  }

  // ---------------------------------------------------------------------------
  // One tile record: 96 bytes, of which the decoder reads 84 and skips the rest

  /** The tile decoded from the record at absolute position p: every field is the
      value at its fixed offset in the record. Only the last 12 bytes may lie past
      the end of the stream, because skipping them is a short read that does not fail. */
  function TileRecordAt(data: seq<byte>, p: nat): (r: Result<Tile>)
    ensures r.Failure? <==> |data| < p + 84
    ensures r.Failure? ==> r.error == EndOfStream
    ensures r.Success? ==> |r.value.subTileFlags| == 25 && r.value.blocks == []
  {
    if p + 84 <= |data| then
      Success(Tile(
        direction := I32Le(data, p),
        roofHeight := I16Le(data, p + 4),
        soundIndex := data[p + 6],
        animated := data[p + 7] == 1,
        height := I32Le(data, p + 8),
        width := I32Le(data, p + 12),
        orientation := I32Le(data, p + 20),
        mainIndex := I32Le(data, p + 24),
        subIndex := I32Le(data, p + 28),
        rarityOrFrameIndex := I32Le(data, p + 32),
        subTileFlags := data[p + 40 .. p + 65],
        blockHeadersPointer := I32Le(data, p + 72),
        blockDataLength := I32Le(data, p + 76),
        numberOfBlocks := I32Le(data, p + 80),
        blocks := []))
    else
      Failure(EndOfStream)
  }

  /** The cursor stands at q, or the stream ended before q (a skip to q was short). */
  predicate AtOrPastEnd(pos: nat, size: nat, q: nat) {
    pos == q || (size < q && size <= pos)
  }

  /** Reads of the fields and skips of the gaps, in record order, from the cursor on. */
  method ReadTile(br: Reader) returns (r: Result<Tile>)
    modifies br
    ensures r == TileRecordAt(br.data, old(br.pos))
    ensures r.Success? ==> br.pos == Min(old(br.pos) + 96, |br.data|)
  {
    ghost var p := br.pos;
    var head :- ReadTileHead(br);
    var _ := br.ReadBytes(4);
    var indices :- ReadTileIndices(br, p);
    var _ := br.ReadBytes(4);
    var flags :- ReadSubTileFlags(br, p);
    var _ := br.ReadBytes(7);
    var table :- ReadBlockTable(br, p);
    var _ := br.ReadBytes(12);
    return Success(Tile(head.0, head.1, head.2, head.3, head.4, head.5,
      indices.0, indices.1, indices.2, indices.3, flags, table.0, table.1, table.2, []));
  }

  /** Record offsets 0 to 15: direction, roof height, sound index, the animated flag, height, width. */
  method ReadTileHead(br: Reader) returns (r: Result<(int, int, byte, bool, int, int)>)
    modifies br
    ensures r.Failure? ==> r == Failure(EndOfStream) && |br.data| < old(br.pos) + 16
    ensures r.Success? ==> br.pos == old(br.pos) + 16 <= |br.data|
    ensures var p := old(br.pos); r.Success? ==>
      r.value == (I32Le(br.data, p), I16Le(br.data, p + 4), br.data[p + 6], br.data[p + 7] == 1,
                  I32Le(br.data, p + 8), I32Le(br.data, p + 12))
  {
    var direction :- br.ReadInt32();
    var roofHeight :- br.ReadInt16();
    var soundIndex :- br.ReadByte();
    var animated :- br.ReadByte();
    var height :- br.ReadInt32();
    var width :- br.ReadInt32();
    return Success((direction, roofHeight, soundIndex, animated == 1, height, width));
  }

  /** Record offsets 20 to 35: orientation, main index, sub index, rarity or frame index. */
  method ReadTileIndices(br: Reader, ghost p: nat) returns (r: Result<(int, int, int, int)>)
    requires p + 16 <= |br.data| && AtOrPastEnd(br.pos, |br.data|, p + 20)
    modifies br
    ensures r.Failure? ==> r == Failure(EndOfStream) && |br.data| < p + 36
    ensures r.Success? ==> br.pos == p + 36 <= |br.data|
    ensures r.Success? ==>
      r.value == (I32Le(br.data, p + 20), I32Le(br.data, p + 24), I32Le(br.data, p + 28), I32Le(br.data, p + 32))
  {
    var orientation :- br.ReadInt32();
    var mainIndex :- br.ReadInt32();
    var subIndex :- br.ReadInt32();
    var rarity :- br.ReadInt32();
    return Success((orientation, mainIndex, subIndex, rarity));
  }

  /** Record offsets 40 to 64: the 25 sub-tile flag bytes, read one by one into a fresh array. */
  method ReadSubTileFlags(br: Reader, ghost p: nat) returns (r: Result<seq<byte>>)
    requires p + 36 <= |br.data| && AtOrPastEnd(br.pos, |br.data|, p + 40)
    modifies br
    ensures r.Failure? ==> r == Failure(EndOfStream) && |br.data| < p + 65
    ensures r.Success? ==> br.pos == p + 65 <= |br.data| && r.value == br.data[p + 40 .. p + 65]
  {
    var flags := new byte[25];
    for i := 0 to 25
      invariant AtOrPastEnd(br.pos, |br.data|, p + 40 + i)
      invariant 0 < i ==> p + 40 + i <= |br.data|
      invariant p + 40 + i <= |br.data| ==> br.pos == p + 40 + i && flags[.. i] == br.data[p + 40 .. p + 40 + i]
    {
      var f := br.ReadByte();
      if f.Failure? {
        return Failure(f.error);
      }
      flags[i] := f.value;
    }
    return Success(flags[..]);
  }

  /** Record offsets 72 to 83: block headers pointer, block data length, number of blocks. */
  method ReadBlockTable(br: Reader, ghost p: nat) returns (r: Result<(int, int, int)>)
    requires p + 65 <= |br.data| && AtOrPastEnd(br.pos, |br.data|, p + 72)
    modifies br
    ensures r.Failure? ==> r == Failure(EndOfStream) && |br.data| < p + 84
    ensures r.Success? ==> br.pos == p + 84 <= |br.data|
    ensures r.Success? ==> r.value == (I32Le(br.data, p + 72), I32Le(br.data, p + 76), I32Le(br.data, p + 80))
  {
    var blockHeadersPointer :- br.ReadInt32();
    var blockDataLength :- br.ReadInt32();
    var numberOfBlocks :- br.ReadInt32();
    return Success((blockHeadersPointer, blockDataLength, numberOfBlocks));
  }

  // ---------------------------------------------------------------------------
  // One block header: 20 bytes

  /** The block described by the header at absolute position p. Both grid bytes are
      read into gridX, so gridX is the byte at offset 7 and gridY is never set. */
  function BlockRecordAt(data: seq<byte>, p: nat): (r: Result<Block>)
    ensures r.Failure? <==> |data| < p + 20
    ensures r.Failure? ==> r.error == EndOfStream
    ensures r.Success? ==> r.value.gridY == 0 && r.value.pixelData == []
  {
    if p + 20 <= |data| then
      Success(Block(
        positionX := I16Le(data, p),
        positionY := I16Le(data, p + 2),
        gridX := data[p + 7],
        gridY := 0,
        format := I16Le(data, p + 8),
        length := I32Le(data, p + 10),
        fileOffset := I32Le(data, p + 16),
        pixelData := []))
    else
      Failure(EndOfStream)
  }

  /** Reads of the fields and skips of the gaps, in header order, from the cursor on. */
  method ReadBlock(br: Reader) returns (r: Result<Block>)
    modifies br
    ensures r == BlockRecordAt(br.data, old(br.pos))
    ensures r.Success? ==> br.pos == old(br.pos) + 20
  {
    ghost var p := br.pos;
    var positionX :- br.ReadInt16();
    var positionY :- br.ReadInt16();
    var _ := br.ReadBytes(2);
    var fields :- ReadBlockFields(br, p);
    var _ := br.ReadBytes(2);
    var fileOffset := br.ReadInt32();
    if fileOffset.Failure? {
      return Failure(fileOffset.error);
    }
    return Success(Block(positionX, positionY, fields.0, 0, fields.1, fields.2, fileOffset.value, []));
  }

  /** Header offsets 6 to 13: both grid bytes, read one after the other into gridX, then
      the format and the length. */
  method ReadBlockFields(br: Reader, ghost p: nat) returns (r: Result<(byte, int, int)>)
    requires p + 4 <= |br.data| && AtOrPastEnd(br.pos, |br.data|, p + 6)
    modifies br
    ensures r.Failure? ==> r == Failure(EndOfStream) && |br.data| < p + 14
    ensures r.Success? ==> br.pos == p + 14 <= |br.data|
    ensures r.Success? ==> r.value == (br.data[p + 7], I16Le(br.data, p + 8), I32Le(br.data, p + 10))
  {
    var gridX :- br.ReadByte();
    gridX :- br.ReadByte();
    var format :- br.ReadInt16();
    var length :- br.ReadInt32();
    return Success((gridX, format, length));
  }

  // ---------------------------------------------------------------------------
  // The record layouts written out: encoders whose output the readers decode

  /** A tile whose fields fit the widths of their record slots. */
  predicate TileFits(t: Tile) {
    -TWO_31 <= t.direction < TWO_31 && -0x8000 <= t.roofHeight < 0x8000 &&
    -TWO_31 <= t.height < TWO_31 && -TWO_31 <= t.width < TWO_31 &&
    -TWO_31 <= t.orientation < TWO_31 && -TWO_31 <= t.mainIndex < TWO_31 &&
    -TWO_31 <= t.subIndex < TWO_31 && -TWO_31 <= t.rarityOrFrameIndex < TWO_31 &&
    |t.subTileFlags| == 25 &&
    -TWO_31 <= t.blockHeadersPointer < TWO_31 && -TWO_31 <= t.blockDataLength < TWO_31 &&
    -TWO_31 <= t.numberOfBlocks < TWO_31
  }

  /** Byte k of the 96-byte record of tile t; the reserved bytes are written as 0. */
  function TileByte(t: Tile, k: int): byte
    requires TileFits(t) && 0 <= k < 96
  {
    if k < 4 then EncodeI32(t.direction)[k]
    else if k < 6 then EncodeI16(t.roofHeight)[k - 4]
    else if k == 6 then t.soundIndex
    else if k == 7 then (if t.animated then 1 else 0)
    else if k < 12 then EncodeI32(t.height)[k - 8]
    else if k < 16 then EncodeI32(t.width)[k - 12]
    else if k < 20 then 0
    else if k < 24 then EncodeI32(t.orientation)[k - 20]
    else if k < 28 then EncodeI32(t.mainIndex)[k - 24]
    else if k < 32 then EncodeI32(t.subIndex)[k - 28]
    else if k < 36 then EncodeI32(t.rarityOrFrameIndex)[k - 32]
    else if k < 40 then 0
    else if k < 65 then t.subTileFlags[k - 40]
    else if k < 72 then 0
    else if k < 76 then EncodeI32(t.blockHeadersPointer)[k - 72]
    else if k < 80 then EncodeI32(t.blockDataLength)[k - 76]
    else if k < 84 then EncodeI32(t.numberOfBlocks)[k - 80]
    else 0
  }

  function TileRecordBytes(t: Tile): (r: seq<byte>)
    requires TileFits(t)
    ensures |r| == 96
  {
    seq(96, k requires 0 <= k < 96 => TileByte(t, k))
  }

  /** Record offsets 0 to 15 of an encoded tile read back as its fields. */
  lemma {:induction false} TileHeadRoundTrip(s: seq<byte>, p: nat, t: Tile)
    requires TileFits(t) && HoldsAt(s, p, TileRecordBytes(t))
    ensures I32Le(s, p) == t.direction && I16Le(s, p + 4) == t.roofHeight
    ensures s[p + 6] == t.soundIndex && (s[p + 7] == 1) == t.animated
    ensures I32Le(s, p + 8) == t.height && I32Le(s, p + 12) == t.width
  {
    var rec := TileRecordBytes(t);
    I32InRecord(s, p, rec, 0, t.direction);
    I16InRecord(s, p, rec, 4, t.roofHeight);
    assert s[p + 6] == rec[6] && s[p + 7] == rec[7];
    I32InRecord(s, p, rec, 8, t.height);
    I32InRecord(s, p, rec, 12, t.width);
  }

  /** Record offsets 20 to 35 of an encoded tile read back as its fields. */
  lemma {:induction false} TileIndicesRoundTrip(s: seq<byte>, p: nat, t: Tile)
    requires TileFits(t) && HoldsAt(s, p, TileRecordBytes(t))
    ensures I32Le(s, p + 20) == t.orientation && I32Le(s, p + 24) == t.mainIndex
    ensures I32Le(s, p + 28) == t.subIndex && I32Le(s, p + 32) == t.rarityOrFrameIndex
  {
    var rec := TileRecordBytes(t);
    I32InRecord(s, p, rec, 20, t.orientation);
    I32InRecord(s, p, rec, 24, t.mainIndex);
    I32InRecord(s, p, rec, 28, t.subIndex);
    I32InRecord(s, p, rec, 32, t.rarityOrFrameIndex);
  }

  /** Record offsets 40 to 83 of an encoded tile read back as its fields. */
  lemma {:induction false} TileTableRoundTrip(s: seq<byte>, p: nat, t: Tile)
    requires TileFits(t) && HoldsAt(s, p, TileRecordBytes(t))
    ensures s[p + 40 .. p + 65] == t.subTileFlags
    ensures I32Le(s, p + 72) == t.blockHeadersPointer && I32Le(s, p + 76) == t.blockDataLength
    ensures I32Le(s, p + 80) == t.numberOfBlocks
  {
    var rec := TileRecordBytes(t);
    forall j | 0 <= j < 25
      ensures s[p + 40 .. p + 65][j] == t.subTileFlags[j]
    {
      assert s[p + 40 + j] == rec[40 + j];
    }
    I32InRecord(s, p, rec, 72, t.blockHeadersPointer);
    I32InRecord(s, p, rec, 76, t.blockDataLength);
    I32InRecord(s, p, rec, 80, t.numberOfBlocks);
  }

  /** A tile record written anywhere in a stream decodes to the tile it encodes, without
      its blocks: every field is read from its own slot and the reserved bytes are skipped. */
  lemma {:induction false} TileRecordRoundTrip(pre: seq<byte>, t: Tile, post: seq<byte>)
    requires TileFits(t)
    ensures TileRecordAt(pre + TileRecordBytes(t) + post, |pre|) == Success(t.(blocks := []))
  {
    var s := pre + TileRecordBytes(t) + post;
    var p := |pre|;
    Embedded(pre, TileRecordBytes(t), post);
    TileHeadRoundTrip(s, p, t);
    TileIndicesRoundTrip(s, p, t);
    TileTableRoundTrip(s, p, t);
  }

  /** A block header whose fields fit the widths of their slots. */
  predicate BlockFits(b: Block) {
    -0x8000 <= b.positionX < 0x8000 && -0x8000 <= b.positionY < 0x8000 &&
    -0x8000 <= b.format < 0x8000 && -TWO_31 <= b.length < TWO_31 && -TWO_31 <= b.fileOffset < TWO_31
  }

  /** Byte k of the 20-byte header of block b, with gridX at offset 6 and gridY at offset 7. */
  function BlockByte(b: Block, k: int): byte
    requires BlockFits(b) && 0 <= k < 20
  {
    if k < 2 then EncodeI16(b.positionX)[k]
    else if k < 4 then EncodeI16(b.positionY)[k - 2]
    else if k < 6 then 0
    else if k == 6 then b.gridX
    else if k == 7 then b.gridY
    else if k < 10 then EncodeI16(b.format)[k - 8]
    else if k < 14 then EncodeI32(b.length)[k - 10]
    else if k < 16 then 0
    else EncodeI32(b.fileOffset)[k - 16]
  }

  function BlockRecordBytes(b: Block): (r: seq<byte>)
    requires BlockFits(b)
    ensures |r| == 20
  {
    seq(20, k requires 0 <= k < 20 => BlockByte(b, k))
  }

  /** A block header written anywhere in a stream decodes to the block it encodes, except
      for the grid: the decoded gridX is the encoded gridY and the decoded gridY is 0, so
      the encoded gridX is lost. */
  lemma {:induction false} BlockRecordRoundTrip(pre: seq<byte>, b: Block, post: seq<byte>)
    requires BlockFits(b)
    ensures BlockRecordAt(pre + BlockRecordBytes(b) + post, |pre|) ==
      Success(b.(gridX := b.gridY, gridY := 0, pixelData := []))
  {
    var s := pre + BlockRecordBytes(b) + post;
    var p := |pre|;
    var rec := BlockRecordBytes(b);
    Embedded(pre, rec, post);
    I16InRecord(s, p, rec, 0, b.positionX);
    I16InRecord(s, p, rec, 2, b.positionY);
    assert s[p + 7] == rec[7];
    I16InRecord(s, p, rec, 8, b.format);
    I32InRecord(s, p, rec, 10, b.length);
    I32InRecord(s, p, rec, 16, b.fileOffset);
  }

  /** Two headers that differ only in their gridX byte decode to the same block. */
  lemma {:induction false} GridXLost(pre: seq<byte>, b: Block, g: byte, post: seq<byte>)
    requires BlockFits(b)
    ensures BlockRecordAt(pre + BlockRecordBytes(b) + post, |pre|)
         == BlockRecordAt(pre + BlockRecordBytes(b.(gridX := g)) + post, |pre|)
  {
    BlockRecordRoundTrip(pre, b, post);
    BlockRecordRoundTrip(pre, b.(gridX := g), post);
  }

  // ---------------------------------------------------------------------------
  // ReadTiles: the tile table

  /** Position of tile record i: `_tileHeaderOffset + (tileIndex * 96)` in Int32 arithmetic. */
  function TileOffset(tileHeaderOffset: int, i: int): int {
    Wrap32(tileHeaderOffset + Wrap32(i * 96))
  }

  /** Seek to `off`, then read a tile record there. */
  function TileAt(data: seq<byte>, off: int): Result<Tile> {
    if off < 0 then Failure(NegativeSeek(off)) else TileRecordAt(data, off)
  }

  /** The body of the ReadTiles loop for tile index i. */
  function TileReader(data: seq<byte>, tileHeaderOffset: int): int -> Result<Tile> {
    i => TileAt(data, TileOffset(tileHeaderOffset, i))
  }

  /** ReadTiles: a fresh array of NumberOfTiles tiles, tile i read from its own record. */
  function TilesOf(data: seq<byte>, numberOfTiles: int, tileHeaderOffset: int): Result<seq<Tile>> {
    if numberOfTiles < 0 then
      Failure(NegativeArraySize(numberOfTiles))
    else
      Fill(TileReader(data, tileHeaderOffset), numberOfTiles)
  }

  method ReadTiles(br: Reader, numberOfTiles: int, tileHeaderOffset: int) returns (r: Result<array<Tile>>)
    modifies br
    ensures var t := TilesOf(br.data, numberOfTiles, tileHeaderOffset);
      if t.Failure? then r == Failure(t.error) else r.Success? && fresh(r.value) && r.value[..] == t.value
  {
    if numberOfTiles < 0 {
      return Failure(NegativeArraySize(numberOfTiles));
    }
    var tiles := new Tile[numberOfTiles];
    ghost var f := TileReader(br.data, tileHeaderOffset);
    for i := 0 to numberOfTiles
      invariant Fill(f, i).Success? && tiles[.. i] == Fill(f, i).value
    {
      var tile := SeekTile(br, Wrap32(tileHeaderOffset + Wrap32(i * 96)));
      FillStep(f, i);
      assert f(i) == tile;
      if tile.Failure? {
        FillStops(f, i + 1, numberOfTiles);
        return Failure(tile.error);
      }
      ghost var before := tiles[..];
      tiles[i] := tile.value;
      Extend(before, i, tile.value, tiles[..]);
    }
    return Success(tiles);
  }

  /** One iteration of ReadTiles: the seek to the record, then the record. */
  method SeekTile(br: Reader, off: int) returns (r: Result<Tile>)
    modifies br
    ensures r == TileAt(br.data, off)
  {
    var seek :- br.Seek(off);
    r := ReadTile(br);
  }

  // ---------------------------------------------------------------------------
  // ReadBlockHeaders: the block table of every tile

  /** Position of block header j: `BlockHeadersPointer + (blockIndex * 20)` in Int32 arithmetic. */
  function BlockOffset(blockHeadersPointer: int, j: int): int {
    Wrap32(blockHeadersPointer + Wrap32(j * 20))
  }

  /** Seek to `off`, then read a block header there. */
  function BlockAt(data: seq<byte>, off: int): Result<Block> {
    if off < 0 then Failure(NegativeSeek(off)) else BlockRecordAt(data, off)
  }

  /** The body of the inner ReadBlockHeaders loop for block index j. */
  function BlockReader(data: seq<byte>, blockHeadersPointer: int): int -> Result<Block> {
    j => BlockAt(data, BlockOffset(blockHeadersPointer, j))
  }

  /** The tile with a fresh array of NumberOfBlocks blocks, block j read from its own header. */
  function WithBlocks(data: seq<byte>, t: Tile): (r: Result<Tile>)
    ensures r.Success? ==> |r.value.blocks| == t.numberOfBlocks
  {
    if t.numberOfBlocks < 0 then
      Failure(NegativeArraySize(t.numberOfBlocks))
    else
      var blocks :- Fill(BlockReader(data, t.blockHeadersPointer), t.numberOfBlocks);
      Success(t.(blocks := blocks))
  }

  /** The body of the outer ReadBlockHeaders loop. */
  function HeaderReader(data: seq<byte>): Tile -> Result<Tile> {
    t => WithBlocks(data, t)
  }

  method ReadBlocks(br: Reader, tile: Tile) returns (r: Result<Tile>)
    modifies br
    ensures r == WithBlocks(br.data, tile)
  {
    var count := tile.numberOfBlocks;
    if count < 0 {
      return Failure(NegativeArraySize(count));
    }
    var blocks := new Block[count];
    ghost var f := BlockReader(br.data, tile.blockHeadersPointer);
    for j := 0 to count
      invariant Fill(f, j).Success? && blocks[.. j] == Fill(f, j).value
    {
      var block := SeekBlock(br, Wrap32(tile.blockHeadersPointer + Wrap32(j * 20)));
      FillStep(f, j);
      assert f(j) == block;
      if block.Failure? {
        FillStops(f, j + 1, count);
        assert Fill(f, count) == Failure(block.error);
        return Failure(block.error);
      }
      ghost var before := blocks[..];
      blocks[j] := block.value;
      Extend(before, j, block.value, blocks[..]);
    }
    assert blocks[..] == Fill(f, count).value;
    return Success(tile.(blocks := blocks[..]));
  }

  /** One iteration of the inner ReadBlockHeaders loop: the seek to the header, then the header. */
  method SeekBlock(br: Reader, off: int) returns (r: Result<Block>)
    modifies br
    ensures r == BlockAt(br.data, off)
  {
    var seek :- br.Seek(off);
    r := ReadBlock(br);
  }

  method ReadBlockHeaders(br: Reader, tiles: array<Tile>) returns (r: Result<()>)
    modifies br, tiles
    ensures var h := MapEach(HeaderReader(br.data), old(tiles[..]));
      if h.Failure? then r == Failure(h.error) else r == Success(()) && tiles[..] == h.value
  {
    ghost var orig := tiles[..];
    ghost var h := HeaderReader(br.data);
    for i := 0 to tiles.Length
      invariant MapEach(h, orig[.. i]).Success?
      invariant tiles[..] == MapEach(h, orig[.. i]).value + orig[i..]
    {
      ghost var before := tiles[..];
      ghost var done := MapEach(h, orig[.. i]).value;
      Pending(done, orig, i, before);
      var tile := ReadBlocks(br, tiles[i]);
      MapEachStep(h, orig, i);
      if tile.Failure? {
        MapEachStops(h, orig, i + 1);
        assert MapEach(h, orig) == Failure(tile.error);
        return Failure(tile.error);
      }
      tiles[i] := tile.value;
      Advance(done, orig, i, tile.value, before, tiles[..]);
    }
    assert orig[.. tiles.Length] == orig;
    return Success(());
  }

  // ---------------------------------------------------------------------------
  // ReadBlockGraphics: the pixel payload of every block

  /** Where a block's payload starts: `BlockHeadersPointer + FileOffset` in Int32
      arithmetic, relative to the tile's block headers and not to the file. */
  function PayloadOffset(blockHeadersPointer: int, fileOffset: int): int {
    Wrap32(blockHeadersPointer + fileOffset)
  }

  /** Seek to `off`, then unpack a diamond block (format 1, which must be 256 bytes long)
      or a run-length block (any other format) into a fresh 1024-entry buffer. */
  function BlockPixels(data: seq<byte>, off: int, format: int, length: int): (r: Result<seq<int>>)
    ensures r.Success? ==> |r.value| == 1024
  {
    if off < 0 then
      Failure(NegativeSeek(off))
    else if format == 1 then
      if length != 256 then Failure(BadDiamondLength(length)) else Diamond(data, off)
    else
      RlePixels(data, off, length)
  }

  /** The body of the inner ReadBlockGraphics loop for a block of a tile whose block
      headers start at blockHeadersPointer. */
  function PixelReader(data: seq<byte>, blockHeadersPointer: int): Block -> Result<Block> {
    (b: Block) => var px :- BlockPixels(data, PayloadOffset(blockHeadersPointer, b.fileOffset), b.format, b.length);
                  Success(b.(pixelData := px))
  }

  /** The tile with the pixel data of each of its blocks, in order. */
  function WithGraphics(data: seq<byte>, t: Tile): (r: Result<Tile>)
    ensures r.Success? ==> |r.value.blocks| == |t.blocks|
  {
    var blocks :- MapEach(PixelReader(data, t.blockHeadersPointer), t.blocks);
    Success(t.(blocks := blocks))
  }

  /** The body of the outer ReadBlockGraphics loop. */
  function GraphicsReader(data: seq<byte>): Tile -> Result<Tile> {
    t => WithGraphics(data, t)
  }

  method ReadBlockGraphic(br: Reader, blockHeadersPointer: int, block: Block) returns (r: Result<seq<int>>)
    modifies br
    ensures r == BlockPixels(br.data, PayloadOffset(blockHeadersPointer, block.fileOffset), block.format, block.length)
  {
    var seek :- br.Seek(Wrap32(blockHeadersPointer + block.fileOffset));
    if block.format == 1 {
      if block.length != 256 {
        return Failure(BadDiamondLength(block.length));
      }
      r := UnpackDiamond(br);
    } else {
      r := UnpackRle(br, block.length);
    }
  }

  method ReadTileGraphics(br: Reader, tile: Tile) returns (r: Result<Tile>)
    requires |tile.blocks| == tile.numberOfBlocks
    modifies br
    ensures r == WithGraphics(br.data, tile)
  {
    var blocks := tile.blocks;
    ghost var g := PixelReader(br.data, tile.blockHeadersPointer);
    for j := 0 to tile.numberOfBlocks
      invariant MapEach(g, tile.blocks[.. j]).Success?
      invariant blocks == MapEach(g, tile.blocks[.. j]).value + tile.blocks[j..]
    {
      ghost var done := MapEach(g, tile.blocks[.. j]).value;
      Pending(done, tile.blocks, j, blocks);
      var block := blocks[j];
      var pixels := ReadBlockGraphic(br, tile.blockHeadersPointer, block);
      MapEachStep(g, tile.blocks, j);
      if pixels.Failure? {
        MapEachStops(g, tile.blocks, j + 1);
        assert MapEach(g, tile.blocks) == Failure(pixels.error);
        return Failure(pixels.error);
      }
      ghost var before := blocks;
      blocks := blocks[j := block.(pixelData := pixels.value)];
      Advance(done, tile.blocks, j, block.(pixelData := pixels.value), before, blocks);
    }
    assert tile.blocks[.. tile.numberOfBlocks] == tile.blocks;
    assert blocks == MapEach(g, tile.blocks).value;
    return Success(tile.(blocks := blocks));
  }

  /** Every tile holds exactly NumberOfBlocks blocks, as ReadBlockHeaders leaves them. */
  ghost predicate BlocksAllocated(tiles: seq<Tile>) {
    forall i :: 0 <= i < |tiles| ==> |tiles[i].blocks| == tiles[i].numberOfBlocks
  }

  method ReadBlockGraphics(br: Reader, tiles: array<Tile>) returns (r: Result<()>)
    requires BlocksAllocated(tiles[..])
    modifies br, tiles
    ensures var g := MapEach(GraphicsReader(br.data), old(tiles[..]));
      if g.Failure? then r == Failure(g.error) else r == Success(()) && tiles[..] == g.value
  {
    ghost var orig := tiles[..];
    ghost var h := GraphicsReader(br.data);
    for i := 0 to tiles.Length
      invariant MapEach(h, orig[.. i]).Success?
      invariant tiles[..] == MapEach(h, orig[.. i]).value + orig[i..]
    {
      ghost var before := tiles[..];
      ghost var done := MapEach(h, orig[.. i]).value;
      Pending(done, orig, i, before);
      var tile := ReadTileGraphics(br, tiles[i]);
      MapEachStep(h, orig, i);
      if tile.Failure? {
        MapEachStops(h, orig, i + 1);
        assert MapEach(h, orig) == Failure(tile.error);
        return Failure(tile.error);
      }
      tiles[i] := tile.value;
      Advance(done, orig, i, tile.value, before, tiles[..]);
    }
    assert orig[.. tiles.Length] == orig;
    return Success(());
  }

  // ---------------------------------------------------------------------------
  // The constructor

  /** MPQDT1(stream): X1 and X2 are the Int32s at offsets 0 and 4, NumberOfTiles and the
      tile header offset the Int32s at 268 and 272; then the three stages in turn. */
  function Decode(data: seq<byte>): (r: Result<TileSet>)
    ensures r.Success? ==> 276 <= |data| && r.value.x1 == I32Le(data, 0) && r.value.x2 == I32Le(data, 4)
    ensures r.Success? ==> r.value.numberOfTiles == I32Le(data, 268) && r.value.tileHeaderOffset == I32Le(data, 272)
    ensures r.Success? ==> |r.value.tiles| == r.value.numberOfTiles
  {
    var x1 :- ReadInt32At(data, 0);
    var x2 :- ReadInt32At(data, 4);
    var numberOfTiles :- ReadInt32At(data, 268);
    var tileHeaderOffset :- ReadInt32At(data, 272);
    var tiles :- TilesOf(data, numberOfTiles, tileHeaderOffset);
    var withBlocks :- MapEach(HeaderReader(data), tiles);
    var withGraphics :- MapEach(GraphicsReader(data), withBlocks);
    Success(TileSet(x1, x2, numberOfTiles, tileHeaderOffset, withGraphics))
  }

  /** After ReadBlockHeaders, every tile holds exactly NumberOfBlocks blocks. */
  lemma {:induction false} HeadersAllocate(data: seq<byte>, tiles: seq<Tile>)
    requires MapEach(HeaderReader(data), tiles).Success?
    ensures BlocksAllocated(MapEach(HeaderReader(data), tiles).value)
  {
    var h := MapEach(HeaderReader(data), tiles);
    MapEachIndexed(HeaderReader(data), tiles);
    forall i | 0 <= i < |tiles|
      ensures |h.value[i].blocks| == h.value[i].numberOfBlocks
    {
      assert h.value[i] == WithBlocks(data, tiles[i]).value;
    }
  }

  method Open(data: seq<byte>) returns (r: Result<TileSet>)
    ensures r == Decode(data)
  {
    var br := new Reader(data);
    var x1 :- br.ReadInt32();
    var x2 :- br.ReadInt32();
    var seek := br.Seek(268);
    var numberOfTiles :- br.ReadInt32();
    var tileHeaderOffset :- br.ReadInt32();
    var tiles :- ReadTiles(br, numberOfTiles, tileHeaderOffset);
    ghost var read := tiles[..];
    var headers :- ReadBlockHeaders(br, tiles);
    HeadersAllocate(data, read);
    var graphics :- ReadBlockGraphics(br, tiles);
    return Success(TileSet(x1, x2, numberOfTiles, tileHeaderOffset, tiles[..]));
  }

  // ---------------------------------------------------------------------------
  // What a decoded tile set holds

  /** A stream too short for the header fails with EndOfStream. */
  lemma {:induction false} DecodeTooShort(data: seq<byte>)
    requires |data| < 276
    ensures Decode(data) == Failure(EndOfStream)
  {
  }

  /** A negative tile count fails when the tile array is allocated. */
  lemma {:induction false} DecodeNegativeCount(data: seq<byte>)
    requires 276 <= |data| && I32Le(data, 268) < 0
    ensures Decode(data) == Failure(NegativeArraySize(I32Le(data, 268)))
  {
  }

  /** With no tiles nothing past the header is read. */
  lemma {:induction false} DecodeEmpty(data: seq<byte>)
    requires 276 <= |data| && I32Le(data, 268) == 0
    ensures Decode(data) == Success(TileSet(I32Le(data, 0), I32Le(data, 4), 0, I32Le(data, 272), []))
  {
  }

  /** What the block-header and graphics stages make of one tile: its own fields are
      unchanged, and block j is the header at BlockOffset(pointer, j) with the pixels
      unpacked from PayloadOffset(pointer, fileOffset). */
  lemma {:induction false} TileStages(data: seq<byte>, t: Tile)
    requires WithBlocks(data, t).Success? && WithGraphics(data, WithBlocks(data, t).value).Success?
    ensures var u := WithGraphics(data, WithBlocks(data, t).value).value;
      u.(blocks := []) == t.(blocks := []) && |u.blocks| == t.numberOfBlocks &&
      forall j :: 0 <= j < |u.blocks| ==>
        BlockAt(data, BlockOffset(t.blockHeadersPointer, j)) == Success(u.blocks[j].(pixelData := [])) &&
        BlockPixels(data, PayloadOffset(t.blockHeadersPointer, u.blocks[j].fileOffset), u.blocks[j].format, u.blocks[j].length)
          == Success(u.blocks[j].pixelData)
  {
    var bhp := t.blockHeadersPointer;
    var headers := Fill(BlockReader(data, bhp), t.numberOfBlocks).value;
    var w := WithBlocks(data, t).value;
    assert w == t.(blocks := headers);
    var graphics := MapEach(PixelReader(data, bhp), headers).value;
    var u := WithGraphics(data, w).value;
    assert u == w.(blocks := graphics);
    forall j | 0 <= j < |graphics|
      ensures BlockAt(data, BlockOffset(bhp, j)) == Success(graphics[j].(pixelData := []))
      ensures BlockPixels(data, PayloadOffset(bhp, graphics[j].fileOffset), graphics[j].format, graphics[j].length)
          == Success(graphics[j].pixelData)
    {
      BlockStages(data, bhp, t.numberOfBlocks, j);
    }
  }

  /** Block j of one tile, through both stages. */
  lemma {:induction false} BlockStages(data: seq<byte>, bhp: int, count: nat, j: nat)
    requires Fill(BlockReader(data, bhp), count).Success?
    requires MapEach(PixelReader(data, bhp), Fill(BlockReader(data, bhp), count).value).Success?
    requires j < count
    ensures var headers := Fill(BlockReader(data, bhp), count).value;
      var b := MapEach(PixelReader(data, bhp), headers).value[j];
      BlockAt(data, BlockOffset(bhp, j)) == Success(b.(pixelData := [])) &&
      BlockPixels(data, PayloadOffset(bhp, b.fileOffset), b.format, b.length) == Success(b.pixelData)
  {
    var headers := Fill(BlockReader(data, bhp), count).value;
    FillIndexed(BlockReader(data, bhp), count);
    MapEachIndexed(PixelReader(data, bhp), headers);
    var h := headers[j];
    var b := MapEach(PixelReader(data, bhp), headers).value[j];
    assert BlockReader(data, bhp)(j) == Success(h);
    assert PixelReader(data, bhp)(h) == Success(b);
    var px := BlockPixels(data, PayloadOffset(bhp, h.fileOffset), h.format, h.length);
    assert px.Success? && b == h.(pixelData := px.value);
    assert b.fileOffset == h.fileOffset && b.format == h.format && b.length == h.length;
    assert b.(pixelData := []) == h;
  }

  /** Tile i of a decoded set is the record at TileOffset(offset, i), and it holds exactly
      NumberOfBlocks blocks; there are exactly NumberOfTiles tiles. */
  lemma {:induction false} DecodeTiles(data: seq<byte>)
    requires Decode(data).Success?
    ensures var ts := Decode(data).value;
      |ts.tiles| == ts.numberOfTiles &&
      forall i :: 0 <= i < |ts.tiles| ==>
        TileAt(data, TileOffset(ts.tileHeaderOffset, i)) == Success(ts.tiles[i].(blocks := [])) &&
        |ts.tiles[i].blocks| == ts.tiles[i].numberOfBlocks
  {
    var n, tho := I32Le(data, 268), I32Le(data, 272);
    var tiles := TilesOf(data, n, tho).value;
    var headers := MapEach(HeaderReader(data), tiles).value;
    var graphics := MapEach(GraphicsReader(data), headers).value;
    assert Decode(data).value.tiles == graphics;
    FillIndexed(TileReader(data, tho), n);
    MapEachIndexed(HeaderReader(data), tiles);
    MapEachIndexed(GraphicsReader(data), headers);
    forall i | 0 <= i < n
      ensures TileAt(data, TileOffset(tho, i)) == Success(graphics[i].(blocks := []))
      ensures |graphics[i].blocks| == graphics[i].numberOfBlocks
    {
      assert TileReader(data, tho)(i) == Success(tiles[i]);
      assert HeaderReader(data)(tiles[i]) == Success(headers[i]);
      assert GraphicsReader(data)(headers[i]) == Success(graphics[i]);
      TileStages(data, tiles[i]);
    }
  }

  /** Block j of tile i of a decoded set is the header at BlockOffset(pointer, j), and its
      pixels are the payload unpacked from PayloadOffset(pointer, fileOffset). */
  lemma {:induction false} DecodeBlocks(data: seq<byte>)
    requires Decode(data).Success?
    ensures var ts := Decode(data).value;
      forall i, j :: 0 <= i < |ts.tiles| && 0 <= j < |ts.tiles[i].blocks| ==>
        var p := ts.tiles[i].blockHeadersPointer;
        BlockAt(data, BlockOffset(p, j)) == Success(ts.tiles[i].blocks[j].(pixelData := [])) &&
        BlockPixels(data, PayloadOffset(p, ts.tiles[i].blocks[j].fileOffset), ts.tiles[i].blocks[j].format,
          ts.tiles[i].blocks[j].length) == Success(ts.tiles[i].blocks[j].pixelData)
  {
    var n, tho := I32Le(data, 268), I32Le(data, 272);
    var tiles := TilesOf(data, n, tho).value;
    var headers := MapEach(HeaderReader(data), tiles).value;
    var graphics := MapEach(GraphicsReader(data), headers).value;
    assert Decode(data).value.tiles == graphics;
    MapEachIndexed(HeaderReader(data), tiles);
    MapEachIndexed(GraphicsReader(data), headers);
    forall i | 0 <= i < |graphics|
      ensures forall j :: 0 <= j < |graphics[i].blocks| ==>
        var p := graphics[i].blockHeadersPointer;
        BlockAt(data, BlockOffset(p, j)) == Success(graphics[i].blocks[j].(pixelData := [])) &&
        BlockPixels(data, PayloadOffset(p, graphics[i].blocks[j].fileOffset), graphics[i].blocks[j].format,
          graphics[i].blocks[j].length) == Success(graphics[i].blocks[j].pixelData)
    {
      assert HeaderReader(data)(tiles[i]) == Success(headers[i]);
      assert GraphicsReader(data)(headers[i]) == Success(graphics[i]);
      TileStages(data, tiles[i]);
    }
  }

  /** Block j of tile i of a decoded set, field by field: GridX is the byte at offset 7
      of its header, GridY is 0, its buffer has 1024 entries, and its payload offset is
      not negative. A diamond block is exactly 256 bytes long and its pixels are those
      256 bytes placed on the diamond; any other block is a run-length stream. */
  lemma {:induction false} DecodedBlock(data: seq<byte>, i: nat, j: nat)
    requires Decode(data).Success?
    requires i < |Decode(data).value.tiles| && j < |Decode(data).value.tiles[i].blocks|
    ensures var t := Decode(data).value.tiles[i];
      var b := t.blocks[j];
      var p := BlockOffset(t.blockHeadersPointer, j);
      var off := PayloadOffset(t.blockHeadersPointer, b.fileOffset);
      0 <= p && p + 20 <= |data| && b.gridX == data[p + 7] && b.gridY == 0 &&
      b.fileOffset == I32Le(data, p + 16) &&
      |b.pixelData| == 1024 && 0 <= off &&
      (b.format == 1 ==> b.length == 256 && off + 256 <= |data| && b.pixelData == DiamondPixels(data[off .. off + 256])) &&
      (b.format != 1 ==> RlePixels(data, off, b.length) == Success(b.pixelData))
  {
    DecodeBlocks(data);
    var t := Decode(data).value.tiles[i];
    var b := t.blocks[j];
    var p := BlockOffset(t.blockHeadersPointer, j);
    assert BlockAt(data, p) == Success(b.(pixelData := []));
    assert BlockPixels(data, PayloadOffset(t.blockHeadersPointer, b.fileOffset), b.format, b.length) == Success(b.pixelData);
  }
}
