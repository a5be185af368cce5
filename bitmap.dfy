/** The in-memory part of app/bitmap.c: GenBmpFile turns a frame into the bytes of a BMP file,
    GetBmpData turns the bytes of a BMP file back into a frame. The file itself is a byte
    sequence here; opening, seeking, writing and reading it are left to the caller. */
module Bitmap {
  import opened Common
  import opened BmpLayout
  import opened BmpPixels

  /** The frames the writer handles: 32 bits per pixel, `4 * width * height` bytes, and
      sizes that 32-bit arithmetic computes without wrapping. */
  predicate Encodable(src: seq<byte>, bpp: nat, width: u32, height: u32) {
    bpp == 32 && |src| == 4 * width * height && width * bpp + 31 < TWO32 &&
    HEADER_SIZE + |src| < TWO32
  }

  /** The bytes GenBmpFile writes: the two headers, then the rows bottom-up with every pixel's
      bytes reversed. */
  function EncodeBmp(src: seq<byte>, bpp: nat, width: u32, height: u32): (file: seq<byte>)
    requires Encodable(src, bpp, width, height)
    ensures |file| == HEADER_SIZE + |src|
  {
    StrideBounds(width, bpp);
    FlipInvolution(src, 4 * width, height);
    Headers(width, height, bpp) + Flip(src, 4 * width, height)
  }

  /** The 54 header bytes GenBmpFile writes for a `width` x `height` image. */
  function Headers(width: u32, height: u32, bpp: u16): (h: seq<byte>)
    requires HEADER_SIZE + Stride(width, bpp) * height < TWO32
    ensures |h| == HEADER_SIZE
  {
    SerializeFileHeader(NewFileHeader(width, height, bpp)) + SerializeInfoHeader(NewInfoHeader(width, height, bpp))
  }

  /** The image GetBmpData hands back: bit count (stored through a `__u8 *`), size and pixels. */
  datatype Decoded = Decoded(bpp: byte, width: u32, height: u32, pixels: seq<byte>)

  /** What the reader needs of the two headers it read from a file of `n` bytes: 32-bit
      pixels, sizes within 32-bit arithmetic, and all the rows present after `bfOffBits`. */
  predicate DecodableHeaders(f: FileHeader, i: InfoHeader, n: nat) {
    i.biBitCount == 32 && i.biWidth * 32 + 31 < TWO32 && 4 * i.biWidth * i.biHeight < TWO32 &&
    f.bfOffBits + 4 * i.biWidth * i.biHeight <= n
  }

  predicate Decodable(file: seq<byte>)
    requires |file| >= HEADER_SIZE
  {
    DecodableHeaders(ParseFileHeader(file), ParseInfoHeader(file), |file|)
  }

  /** The image read from `file` under headers `f` and `i`: the info header's bit count, width
      and height, and the rows read from `bfOffBits` on, bottom-up and with every pixel's bytes
      reversed. */
  function DecodeWith(file: seq<byte>, f: FileHeader, i: InfoHeader): (d: Decoded)
    requires DecodableHeaders(f, i, |file|)
    ensures d.bpp == i.biBitCount && d.width == i.biWidth && d.height == i.biHeight
    ensures |d.pixels| == i.biWidth * i.biHeight * (i.biBitCount / 8)
  {
    var line := 4 * i.biWidth;
    var payload := file[f.bfOffBits .. f.bfOffBits + line * i.biHeight];
    FlipInvolution(payload, line, i.biHeight);
    MulComm4(i.biWidth, i.biHeight);
    Decoded(i.biBitCount % 0x100, i.biWidth, i.biHeight, Flip(payload, line, i.biHeight))
  }

  /** What GetBmpData returns: None (NULL) when either header cannot be read, otherwise the
      image the headers describe. */
  function DecodeBmp(file: seq<byte>): (r: Option<Decoded>)
    requires |file| >= HEADER_SIZE ==> Decodable(file)
    ensures r.None? <==> |file| < HEADER_SIZE
  {
    if |file| < HEADER_SIZE then None
    else Some(DecodeWith(file, ParseFileHeader(file), ParseInfoHeader(file)))
  }

  lemma MulComm4(w: nat, h: nat)
    ensures w * h * 4 == (4 * w) * h
  {
  }

  /** Read back, the headers of an encoded file say what the writer set: signature "BM", the
      actual file length, reserved fields 0 and the rows at offset 54; a 40-byte info header
      with the image's width and height, one plane, 32 bits per pixel, no compression, image
      size 0, 3780 pixels per metre on both axes and no palette. */
  lemma EncodedHeaders(src: seq<byte>, width: u32, height: u32)
    requires Encodable(src, 32, width, height)
    ensures var file := EncodeBmp(src, 32, width, height);
      var f, i := ParseFileHeader(file), ParseInfoHeader(file);
      f.bfType0 == 'B' as int && f.bfType1 == 'M' as int && f.bfSize == |file| &&
      f.bfReserved1 == 0 && f.bfReserved2 == 0 && f.bfOffBits == HEADER_SIZE &&
      i.biSize == INFO_HEADER_SIZE && i.biWidth == width && i.biHeight == height &&
      i.biPlanes == 1 && i.biBitCount == 32 && i.biCompression == 0 && i.biSizeImage == 0 &&
      i.biXPelsPerMeter == 3780 && i.biYPelsPerMeter == 3780 && i.biClrUsed == 0 && i.biClrImportant == 0
  {
    StrideBounds(width, 32);
    ParseSerialize(NewFileHeader(width, height, 32), NewInfoHeader(width, height, 32), Flip(src, 4 * width, height));
  }

  /** Cut into rows of `4 * width` bytes, the data of an encoded file are the source rows
      in reverse order (BMP stores the bottom row first), each with its pixel bytes
      reversed. */
  lemma EncodedRows(src: seq<byte>, width: u32, height: u32)
    requires Encodable(src, 32, width, height)
    ensures var file := EncodeBmp(src, 32, width, height);
      Rows(file[HEADER_SIZE..], 4 * width, height) == FlipRows(Rows(src, 4 * width, height))
  {
    StrideBounds(width, 32);
    FlippedAfter(Headers(width, height, 32), src, 4 * width, height);
  }

  lemma FlippedAfter(head: seq<byte>, src: seq<byte>, line: nat, h: nat)
    requires |src| == line * h && line % 4 == 0
    ensures |(head + Flip(src, line, h))[|head|..]| == line * h
    ensures Rows((head + Flip(src, line, h))[|head|..], line, h) == FlipRows(Rows(src, line, h))
  {
    var fs := FlipRows(Rows(src, line, h));
    assert (head + Flip(src, line, h))[|head|..] == Concat(fs);
    RowsConcat(fs, line);
  }

  /** Reading back what the writer produced gives the original frame, width, height and bit
      count. */
  lemma RoundTrip(src: seq<byte>, width: u32, height: u32)
    requires Encodable(src, 32, width, height)
    ensures |EncodeBmp(src, 32, width, height)| >= HEADER_SIZE
    ensures Decodable(EncodeBmp(src, 32, width, height))
    ensures DecodeBmp(EncodeBmp(src, 32, width, height)) == Some(Decoded(32, width, height, src))
  {
    var file := EncodeBmp(src, 32, width, height);
    var line := 4 * width;
    StrideBounds(width, 32);
    EncodedHeaders(src, width, height);
    FlipInvolution(src, line, height);
    assert file[HEADER_SIZE .. HEADER_SIZE + line * height] == Flip(src, line, height);
  }

  /** GenBmpFile (lines 62-116) without the file: the zeroed buffer of `54 + stride * height`
      bytes, the headers written at its start, then the rows. */
  method GenBmpFile(pData: seq<byte>, bitCountPerPix: byte, width: u32, height: u32) returns (file: seq<byte>)
    requires Encodable(pData, bitCountPerPix, width, height)
    ensures file == EncodeBmp(pData, bitCountPerPix, width, height)
  {
    var bmpBytePerLine := (width * bitCountPerPix + 31) / 32 * 4;
    var bufBytePerLine := width * bitCountPerPix / 8;
    var bytePerPix := bitCountPerPix / 8;
    StrideBounds(width, bitCountPerPix);
    assert bmpBytePerLine == bufBytePerLine == 4 * width && bytePerPix == 4;
    var headSize := HEADER_SIZE;
    var fileSize := headSize + bmpBytePerLine * height;
    var bmpData := new byte[fileSize](_ => 0);
    var head := Headers(width, height, bitCountPerPix);
    forall k | 0 <= k < headSize {
      bmpData[k] := head[k];
    }
    assert bmpData[..headSize] == head;
    ghost var srcRows := Rows(pData, bufBytePerLine, height);
    ConcatRows(pData, bufBytePerLine, height);
    var pbmp := headSize;
    // the last source line, `(height - 1) * buf_byte_per_line` bytes in
    var pbuf: int := |pData| - bufBytePerLine;
    StoreRows(bmpData, pData, width, height, pbmp, pbuf, srcRows);
    file := bmpData[..];
  }

  /** The row loop of GenBmpFile, from `pbmp` at the first BMP row and `pbuf` at the last
      source row: for each BMP row `y`, the source row `height - 1 - y` stored with the bytes
      of each pixel reversed, `pbuf` stepping back a source line and `pbmp` forward a BMP row.
      The source is given as its rows; the headers before the BMP rows are left as they are. */
  method StoreRows(bmpData: array<byte>, pData: seq<byte>, width: nat, height: nat, pbmp0: nat, pbuf0: int,
                   ghost srcRows: seq<seq<byte>>)
    requires |srcRows| == height && forall i :: 0 <= i < height ==> |srcRows[i]| == 4 * width
    requires Concat(srcRows) == pData && bmpData.Length == HEADER_SIZE + |pData|
    requires pbmp0 == HEADER_SIZE && pbuf0 + 4 * width == |pData|
    modifies bmpData
    ensures bmpData[..] == old(bmpData[..HEADER_SIZE]) + Concat(FlipRows(srcRows))
  {
    var line := 4 * width;
    ghost var head := bmpData[..HEADER_SIZE];
    ghost var rows := FlipRows(srcRows);
    var pbmp, pbuf := pbmp0, pbuf0;
    assert srcRows[..height] == srcRows;
    var y: nat := 0;
    while y < height
      invariant y <= height
      invariant 0 <= pbuf + line <= |pData| && pData[..pbuf + line] == Concat(srcRows[..height - y])
      invariant HEADER_SIZE <= pbmp && bmpData.Length - pbmp == pbuf + line
      invariant bmpData[..pbmp] == head + Concat(rows[..y])
    {
      StoreRow(bmpData, pData, width, y, pbmp, pbuf, head, srcRows, rows);
      pbuf := pbuf - line;
      pbmp := pbmp + line;
      y := y + 1;
    }
    assert rows[..height] == rows;
  }

  /** One pass of GenBmpFile's row loop: with the source rows before `pbuf + 4 * width` still to
      store and the first `y` BMP rows stored before `pbmp`, the source row at `pbuf` is stored
      at `pbmp` with its pixels swapped, as BMP row `y`. */
  method StoreRow(bmpData: array<byte>, pData: seq<byte>, width: nat, y: nat, pbmp: nat, pbuf: int,
                  ghost head: seq<byte>, ghost srcRows: seq<seq<byte>>, ghost rows: seq<seq<byte>>)
    requires y < |srcRows| == |rows| && |srcRows[|srcRows| - 1 - y]| == 4 * width
    requires rows[y] == SwapPixels(srcRows[|srcRows| - 1 - y])
    requires 0 <= pbuf + 4 * width <= |pData| && pData[..pbuf + 4 * width] == Concat(srcRows[..|srcRows| - y])
    requires bmpData.Length - pbmp == pbuf + 4 * width
    requires bmpData[..pbmp] == head + Concat(rows[..y])
    modifies bmpData
    ensures 0 <= pbuf && pData[..pbuf] == Concat(srcRows[..|srcRows| - (y + 1)])
    ensures bmpData[..pbmp + 4 * width] == head + Concat(rows[..y + 1])
  {
    SplitLast(pData, pbuf + 4 * width, srcRows, |srcRows| - 1 - y, 4 * width);
    ghost var before := bmpData[..pbmp];
    StoreRowSwapped(bmpData, pbmp, pData, pbuf, width);
    ExtendRows(head, rows, y, before, bmpData[..pbmp + 4 * width]);
  }

  /** One more row laid after the ones already stored. */
  lemma ExtendRows(head: seq<byte>, rows: seq<seq<byte>>, y: nat, before: seq<byte>, after: seq<byte>)
    requires y < |rows| && before == head + Concat(rows[..y]) && after == before + rows[y]
    ensures after == head + Concat(rows[..y + 1])
  {
    ConcatPrefixStep(rows, y);
    AppendAssoc(head, Concat(rows[..y]), rows[y]);
  }

  lemma AppendAssoc(a: seq<byte>, b: seq<byte>, c: seq<byte>)
    ensures (a + b) + c == a + (b + c)
  {
  }

  /** The inner loop of GenBmpFile: for each pixel `x` of the source row at `pbuf`, its four
      bytes stored in reverse order at `pbmp + 4 * x`. */
  method StoreRowSwapped(bmpData: array<byte>, pbmp: nat, pData: seq<byte>, pbuf: int, width: nat)
    requires 0 <= pbuf && pbmp + 4 * width <= bmpData.Length && pbuf + 4 * width <= |pData|
    modifies bmpData
    ensures bmpData[..pbmp + 4 * width] == old(bmpData[..pbmp]) + SwapPixels(pData[pbuf .. pbuf + 4 * width])
  {
    ghost var n := 4 * width;
    ghost var row := pData[pbuf .. pbuf + n];
    var x := 0;
    while x < width
      invariant 0 <= x <= width
      invariant bmpData[..pbmp] == old(bmpData[..pbmp])
      invariant forall p :: 0 <= p < x ==>
        bmpData[pbmp + 4 * p] == row[4 * p + 3] && bmpData[pbmp + 4 * p + 1] == row[4 * p + 2] &&
        bmpData[pbmp + 4 * p + 2] == row[4 * p + 1] && bmpData[pbmp + 4 * p + 3] == row[4 * p]
    {
      bmpData[pbmp + x * 4 + 3] := pData[pbuf + x * 4 + 0];
      bmpData[pbmp + x * 4 + 2] := pData[pbuf + x * 4 + 1];
      bmpData[pbmp + x * 4 + 1] := pData[pbuf + x * 4 + 2];
      bmpData[pbmp + x * 4 + 0] := pData[pbuf + x * 4 + 3];
      x := x + 1;
    }
    SwappedAt(bmpData[..], pbmp, row, width);
    ghost var prefix, out := bmpData[..pbmp], bmpData[pbmp .. pbmp + n];
    assert out == SwapPixels(row);
    assert bmpData[..pbmp + n] == prefix + out;
  }

  /** Four bytes per pixel stored in reverse order from `at` on are the row with its pixels swapped. */
  lemma SwappedAt(a: seq<byte>, at: nat, row: seq<byte>, width: nat)
    requires |row| == 4 * width && at + 4 * width <= |a|
    requires forall p :: 0 <= p < width ==>
      a[at + 4 * p] == row[4 * p + 3] && a[at + 4 * p + 1] == row[4 * p + 2] &&
      a[at + 4 * p + 2] == row[4 * p + 1] && a[at + 4 * p + 3] == row[4 * p]
    ensures a[at .. at + 4 * width] == SwapPixels(row)
  {
    PixelsSwapped(a[at .. at + 4 * width], row, width);
  }

  /** What a GetBmpData call leaves its caller. The bit count, width and height are stored
      through the caller's pointers as soon as the info header is read, before the mallocs;
      the pixel buffer is returned only when both allocations succeed. */
  datatype ReadOutcome =
    | NoHeader                                      // a header could not be read: NULL, nothing stored
    | HeaderOnly(bpp: byte, width: u32, height: u32) // an allocation failed: NULL, the fields stored
    | Image(image: Decoded)                          // the fields stored and the pixels returned

  /** GetBmpData (lines 125-221) on the file's bytes, with `allocOk` the outcome of the two
      mallocs: nothing where either header cannot be read (a short file makes the fread
      fail); the info header's bit count, width and height when an allocation fails; those
      and the pixels read from `bfOffBits` on otherwise. */
  method GetBmpData(fileBytes: seq<byte>, allocOk: bool) returns (r: ReadOutcome)
    requires |fileBytes| >= HEADER_SIZE ==> Decodable(fileBytes)
    ensures |fileBytes| < HEADER_SIZE <==> r == NoHeader
    ensures |fileBytes| >= HEADER_SIZE ==>
      var d := DecodeBmp(fileBytes).value;
      r == if allocOk then Image(d) else HeaderOnly(d.bpp, d.width, d.height)
  {
    if |fileBytes| < FILE_HEADER_SIZE {
      return NoHeader;
    }
    var mFileHead := ParseFileHeader(fileBytes[..FILE_HEADER_SIZE]);
    if |fileBytes| < HEADER_SIZE {
      return NoHeader;
    }
    var mInfoHead := ParseInfoHeader(fileBytes[..HEADER_SIZE]);
    ParsePrefix(fileBytes);
    var bitCountPerPix := mInfoHead.biBitCount % 0x100;
    var width, height := mInfoHead.biWidth, mInfoHead.biHeight;
    if !allocOk {
      return HeaderOnly(bitCountPerPix, width, height);
    }
    var pdata := LoadRows(fileBytes, mFileHead, mInfoHead);
    return Image(Decoded(bitCountPerPix, width, height, pdata));
  }

  /** GetBmpData's sizes and output buffer: `bmp_byte_per_line`, `byte_per_pix`, a buffer
      of `width * height * byte_per_pix` bytes and `buf_byte_per_line`, then the rows. */
  method LoadRows(fileBytes: seq<byte>, mFileHead: FileHeader, mInfoHead: InfoHeader) returns (pixels: seq<byte>)
    requires DecodableHeaders(mFileHead, mInfoHead, |fileBytes|)
    ensures pixels == DecodeWith(fileBytes, mFileHead, mInfoHead).pixels
  {
    var width: nat, height: nat := mInfoHead.biWidth, mInfoHead.biHeight;
    var bmpBytePerLine: nat := (width * mInfoHead.biBitCount + 31) / 32 * 4;
    var bytePerPix: nat := mInfoHead.biBitCount / 8;
    StrideBounds(width, mInfoHead.biBitCount);
    MulComm4(width, height);
    assert bytePerPix == 4 && width * height * bytePerPix == 4 * width * height;
    var pdata := new byte[width * height * bytePerPix];
    var bufBytePerLine: nat := width * bytePerPix;
    assert bmpBytePerLine == bufBytePerLine == 4 * width;
    var payload := fileBytes[mFileHead.bfOffBits .. mFileHead.bfOffBits + 4 * width * height];
    ghost var bmpRows := Rows(payload, bufBytePerLine, height);
    ConcatRows(payload, bufBytePerLine, height);
    // the last output line, `(biHeight - 1) * buf_byte_per_line` bytes in
    var pbuf: int := pdata.Length - bufBytePerLine;
    ReadRows(pdata, payload, width, height, pbuf, bmpRows);
    pixels := pdata[..];
  }

  /** The row loop of GetBmpData over the bytes that follow `bfOffBits`, given as BMP rows,
      from `pbuf` at the last output row: each BMP row `y` read into `lineBuf` and stored as
      output row `height - 1 - y` with the bytes of each pixel reversed, `pbuf` stepping back
      a line. */
  method ReadRows(pdata: array<byte>, payload: seq<byte>, width: nat, height: nat, pbuf0: int,
                  ghost bmpRows: seq<seq<byte>>)
    requires |bmpRows| == height && forall i :: 0 <= i < height ==> |bmpRows[i]| == 4 * width
    requires Concat(bmpRows) == payload && pdata.Length == |payload| && pbuf0 + 4 * width == |payload|
    modifies pdata
    ensures pdata[..] == Concat(FlipRows(bmpRows))
  {
    var line := 4 * width;
    ghost var rows := FlipRows(bmpRows);
    var pbuf := pbuf0;
    var at: nat := 0;
    assert bmpRows[0..] == bmpRows && rows[height..] == [];
    var y: nat := 0;
    while y < height
      invariant 0 <= y <= height
      invariant at <= |payload| && payload[at..] == Concat(bmpRows[y..])
      invariant pbuf + line + at == |payload|
      invariant pdata[pbuf + line ..] == Concat(rows[height - y ..])
    {
      var lineBuf := ReadRow(pdata, payload, at, pbuf, width, y, bmpRows, rows);
      at := at + line;
      pbuf := pbuf - line;
      y := y + 1;
    }
    assert rows[0..] == rows && pdata[0..] == pdata[..];
  }

  /** One pass of GetBmpData's row loop: with BMP rows `y`, `y + 1`, ... still to read from
      `at` on and the output rows after `pbuf + 4 * width` stored, BMP row `y` is read into
      `lineBuf` and stored at `pbuf` with its pixels swapped, as output row `h - 1 - y`. */
  method ReadRow(pdata: array<byte>, payload: seq<byte>, at: nat, pbuf: int, width: nat, y: nat,
                 ghost bmpRows: seq<seq<byte>>, ghost rows: seq<seq<byte>>) returns (lineBuf: seq<byte>)
    requires y < |bmpRows| == |rows| && |bmpRows[y]| == 4 * width
    requires rows[|rows| - 1 - y] == SwapPixels(bmpRows[y])
    requires at <= |payload| && payload[at..] == Concat(bmpRows[y..])
    requires pbuf + 4 * width + at == |payload| && pdata.Length == |payload|
    requires pdata[pbuf + 4 * width ..] == Concat(rows[|rows| - y ..])
    modifies pdata
    ensures at + 4 * width <= |payload| && lineBuf == payload[at .. at + 4 * width]
    ensures payload[at + 4 * width ..] == Concat(bmpRows[y + 1 ..])
    ensures 0 <= pbuf && pdata[pbuf ..] == Concat(rows[|rows| - (y + 1) ..])
  {
    SplitFirst(payload, at, bmpRows, y, 4 * width);
    lineBuf := payload[at .. at + 4 * width];
    LoadRowSwapped(pdata, pbuf, lineBuf, width);
    ConcatSuffixStep(rows, |rows| - 1 - y);
  }

  /** The inner loop of GetBmpData: for each pixel `x` of `lineBuf`, its four bytes stored in
      reverse order at `pbuf + 4 * x`. What follows the row is left as it is. */
  method LoadRowSwapped(pdata: array<byte>, pbuf: int, lineBuf: seq<byte>, width: nat)
    requires 0 <= pbuf && pbuf + 4 * width <= pdata.Length && |lineBuf| == 4 * width
    modifies pdata
    ensures pdata[pbuf..] == SwapPixels(lineBuf) + old(pdata[pbuf + 4 * width ..])
  {
    ghost var n := 4 * width;
    var x := 0;
    while x < width
      invariant 0 <= x <= width
      invariant forall k :: pbuf + n <= k < pdata.Length ==> pdata[k] == old(pdata[k])
      invariant forall p :: 0 <= p < x ==>
        pdata[pbuf + 4 * p] == lineBuf[4 * p + 3] && pdata[pbuf + 4 * p + 1] == lineBuf[4 * p + 2] &&
        pdata[pbuf + 4 * p + 2] == lineBuf[4 * p + 1] && pdata[pbuf + 4 * p + 3] == lineBuf[4 * p]
    {
      pdata[pbuf + x * 4 + 0] := lineBuf[x * 4 + 3];
      pdata[pbuf + x * 4 + 1] := lineBuf[x * 4 + 2];
      pdata[pbuf + x * 4 + 2] := lineBuf[x * 4 + 1];
      pdata[pbuf + x * 4 + 3] := lineBuf[x * 4 + 0];
      x := x + 1;
    }
    PixelsSwapped(pdata[pbuf .. pbuf + n], lineBuf, width);
    assert pdata[pbuf + n ..] == old(pdata[pbuf + n ..]);
    assert pdata[pbuf..] == pdata[pbuf .. pbuf + n] + pdata[pbuf + n ..];
  }
}
