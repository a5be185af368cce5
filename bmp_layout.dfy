/** The packed BMP headers of app/bitmap.h (a 14-byte BITMAPFILEHEADER followed by a
    40-byte BITMAPINFOHEADER, little-endian fields) and the row stride of app/bitmap.c. */
module BmpLayout {
  import opened Common

  /** The bytes of a little-endian field, least significant first. */
  function Lo(v: u16): byte { v % 0x100 }
  function Hi(v: u16): byte { v / 0x100 }
  function B0(v: u32): byte { v % 0x100 }
  function B1(v: u32): byte { v / 0x100 % 0x100 }
  function B2(v: u32): byte { v / 0x1_0000 % 0x100 }
  function B3(v: u32): byte { v / 0x100_0000 }

  /** Reading a little-endian field at `off`. */
  function Read16(s: seq<byte>, off: nat): u16
    requires off + 2 <= |s|
  {
    s[off] as int + 0x100 * (s[off + 1] as int)
  }

  function Read32(s: seq<byte>, off: nat): u32
    requires off + 4 <= |s|
  {
    s[off] as int + 0x100 * (s[off + 1] as int) + 0x1_0000 * (s[off + 2] as int) + 0x100_0000 * (s[off + 3] as int)
  }

  /** Reading gives back the field whose bytes were written. */
  lemma Read16Bytes(v: u16, s: seq<byte>, off: nat)
    requires off + 2 <= |s| && s[off] == Lo(v) && s[off + 1] == Hi(v)
    ensures Read16(s, off) == v
  {
  }

  lemma Read32Bytes(v: u32, s: seq<byte>, off: nat)
    requires off + 4 <= |s|
    requires s[off] == B0(v) && s[off + 1] == B1(v) && s[off + 2] == B2(v) && s[off + 3] == B3(v)
    ensures Read32(s, off) == v
  {
    var q0, q1, q2 := v / 0x100, v / 0x1_0000, v / 0x100_0000;
    assert v == v % 0x100 + 0x100 * q0;
    assert q0 / 0x100 == q1 && q1 / 0x100 == q2;
    assert q0 == q0 % 0x100 + 0x100 * q1;
    assert q1 == q1 % 0x100 + 0x100 * q2;
  }

  /** BITMAPFILEHEADER (app/bitmap.h:15-23). */
  datatype FileHeader = FileHeader(bfType0: byte, bfType1: byte, bfSize: u32,
                                   bfReserved1: u16, bfReserved2: u16, bfOffBits: u32)

  /** BITMAPINFOHEADER (app/bitmap.h:27-40). */
  datatype InfoHeader = InfoHeader(biSize: u32, biWidth: u32, biHeight: u32, biPlanes: u16,
                                   biBitCount: u16, biCompression: u32, biSizeImage: u32,
                                   biXPelsPerMeter: u32, biYPelsPerMeter: u32,
                                   biClrUsed: u32, biClrImportant: u32)

  const FILE_HEADER_SIZE: nat := 14
  const INFO_HEADER_SIZE: nat := 40
  const HEADER_SIZE: nat := FILE_HEADER_SIZE + INFO_HEADER_SIZE

  /** A field's bytes in little-endian order. */
  function Le16(v: u16): (b: seq<byte>)
    ensures |b| == 2
  {
    [Lo(v), Hi(v)]
  }

  function Le32(v: u32): (b: seq<byte>)
    ensures |b| == 4
  {
    [B0(v), B1(v), B2(v), B3(v)]
  }

  /** The packed layout, field by field. */
  function SerializeFileHeader(f: FileHeader): (b: seq<byte>)
    ensures |b| == FILE_HEADER_SIZE
  {
    [f.bfType0, f.bfType1] + Le32(f.bfSize) + Le16(f.bfReserved1) + Le16(f.bfReserved2) + Le32(f.bfOffBits)
  }

  function SerializeInfoHeader(i: InfoHeader): (b: seq<byte>)
    ensures |b| == INFO_HEADER_SIZE
  {
    Le32(i.biSize) + Le32(i.biWidth) + Le32(i.biHeight) + Le16(i.biPlanes) + Le16(i.biBitCount) +
    Le32(i.biCompression) + Le32(i.biSizeImage) + Le32(i.biXPelsPerMeter) + Le32(i.biYPelsPerMeter) +
    Le32(i.biClrUsed) + Le32(i.biClrImportant)
  }

  /** What `fread(&mFileHead, sizeof(BitMapFileHeader), 1, pf)` leaves in the struct. */
  function ParseFileHeader(s: seq<byte>): FileHeader
    requires |s| >= FILE_HEADER_SIZE
  {
    FileHeader(s[0], s[1], Read32(s, 2), Read16(s, 6), Read16(s, 8), Read32(s, 10))
  }

  /** What the second fread leaves in the info header: the 40 bytes at offset 14 of the file. */
  function ParseInfoHeader(s: seq<byte>): InfoHeader
    requires |s| >= HEADER_SIZE
  {
    InfoFields(s[FILE_HEADER_SIZE .. HEADER_SIZE])
  }

  /** The fields of a 40-byte BITMAPINFOHEADER image. */
  function InfoFields(b: seq<byte>): InfoHeader
    requires |b| == INFO_HEADER_SIZE
  {
    InfoHeader(Read32(b, 0), Read32(b, 4), Read32(b, 8), Read16(b, 12), Read16(b, 14),
               Read32(b, 16), Read32(b, 20), Read32(b, 24), Read32(b, 28),
               Read32(b, 32), Read32(b, 36))
  }

  /** Reading back the serialised headers, whatever follows them, gives the same fields. */
  lemma ParseSerialize(f: FileHeader, i: InfoHeader, rest: seq<byte>)
    ensures ParseFileHeader(SerializeFileHeader(f) + SerializeInfoHeader(i) + rest) == f
    ensures ParseInfoHeader(SerializeFileHeader(f) + SerializeInfoHeader(i) + rest) == i
  {
    var fb, ib := SerializeFileHeader(f), SerializeInfoHeader(i);
    var s := fb + ib + rest;
    assert s[..14] == fb;
    ParseFileFields(f, s);
    assert s[14..54] == ib;
    InfoSizes(i);
    InfoPlanes(i);
    InfoMid(i);
    InfoTail(i);
  }

  lemma ParseFileFields(f: FileHeader, s: seq<byte>)
    requires |s| >= HEADER_SIZE && s[..14] == SerializeFileHeader(f)
    ensures ParseFileHeader(s) == f
  {
    var fb := SerializeFileHeader(f);
    assert forall k :: 0 <= k < 14 ==> s[k] == fb[k];
    Read32Bytes(f.bfSize, s, 2);
    Read16Bytes(f.bfReserved1, s, 6);
    Read16Bytes(f.bfReserved2, s, 8);
    Read32Bytes(f.bfOffBits, s, 10);
  }

  lemma InfoSizes(i: InfoHeader)
    ensures var b := SerializeInfoHeader(i);
      Read32(b, 0) == i.biSize && Read32(b, 4) == i.biWidth && Read32(b, 8) == i.biHeight
  {
    var b := SerializeInfoHeader(i);
    Read32Bytes(i.biSize, b, 0);
    Read32Bytes(i.biWidth, b, 4);
    Read32Bytes(i.biHeight, b, 8);
  }

  lemma InfoPlanes(i: InfoHeader)
    ensures var b := SerializeInfoHeader(i);
      Read16(b, 12) == i.biPlanes && Read16(b, 14) == i.biBitCount
  {
    var b := SerializeInfoHeader(i);
    Read16Bytes(i.biPlanes, b, 12);
    Read16Bytes(i.biBitCount, b, 14);
  }

  lemma InfoMid(i: InfoHeader)
    ensures var b := SerializeInfoHeader(i);
      Read32(b, 16) == i.biCompression && Read32(b, 20) == i.biSizeImage &&
      Read32(b, 24) == i.biXPelsPerMeter
  {
    var b := SerializeInfoHeader(i);
    Read32Bytes(i.biCompression, b, 16);
    Read32Bytes(i.biSizeImage, b, 20);
    Read32Bytes(i.biXPelsPerMeter, b, 24);
  }

  lemma InfoTail(i: InfoHeader)
    ensures var b := SerializeInfoHeader(i);
      Read32(b, 28) == i.biYPelsPerMeter && Read32(b, 32) == i.biClrUsed &&
      Read32(b, 36) == i.biClrImportant
  {
    var b := SerializeInfoHeader(i);
    Read32Bytes(i.biYPelsPerMeter, b, 28);
    Read32Bytes(i.biClrUsed, b, 32);
    Read32Bytes(i.biClrImportant, b, 36);
  }

  /** The headers depend only on the first 54 bytes, read in two parts as the reader does. */
  lemma ParsePrefix(s: seq<byte>)
    requires |s| >= HEADER_SIZE
    ensures ParseFileHeader(s[..FILE_HEADER_SIZE]) == ParseFileHeader(s)
    ensures ParseInfoHeader(s[..HEADER_SIZE]) == ParseInfoHeader(s)
  {
  }

  /** `((width * bitCountPerPix + 31) >> 5) << 2`: a BMP row, padded to a multiple of 4 bytes. */
  function Stride(width: nat, bpp: nat): nat
  {
    (width * bpp + 31) / 32 * 4
  }

  /** The stride is a multiple of four, holds the row's `ceil(width * bpp / 8)` bytes with fewer
      than four bytes of padding, and is exactly `4 * width` for 32-bit pixels. */
  lemma StrideBounds(width: nat, bpp: nat)
    ensures Stride(width, bpp) % 4 == 0
    ensures Stride(width, bpp) >= (width * bpp + 7) / 8
    ensures Stride(width, bpp) < (width * bpp + 7) / 8 + 4
    ensures bpp == 32 ==> Stride(width, bpp) == 4 * width
  {
    var n := width * bpp;
    PaddedRow(n);
    if bpp == 32 {
      assert n == 32 * width;
    }
  }

  /** `n` bits rounded up to whole 32-bit words, in bytes. */
  lemma PaddedRow(n: nat)
    ensures (n + 31) / 32 * 4 % 4 == 0
    ensures (n + 7) / 8 <= (n + 31) / 32 * 4 < (n + 7) / 8 + 4
  {
    var q := (n + 31) / 32;
    assert 32 * q <= n + 31 < 32 * q + 32;
    var c := (n + 7) / 8;
    assert 8 * c <= n + 7 < 8 * c + 8;
  }

  /** The headers GenBmpFile writes for a `width` x `height` image of `bpp` bits per pixel:
      signature "BM", reserved fields 0, file size = 54 + stride * height, data at offset 54;
      a 40-byte info header with one plane, no compression, image size 0, 3780 pixels per
      metre on both axes and no palette. */
  function NewFileHeader(width: u32, height: u32, bpp: nat): FileHeader
    requires HEADER_SIZE + Stride(width, bpp) * height < TWO32
  {
    FileHeader('B' as int, 'M' as int, HEADER_SIZE + Stride(width, bpp) * height, 0, 0, HEADER_SIZE)
  }

  function NewInfoHeader(width: u32, height: u32, bpp: u16): InfoHeader
  {
    InfoHeader(INFO_HEADER_SIZE, width, height, 1, bpp, 0, 0, 3780, 3780, 0, 0)
  }
}
