/** The driver's fixed table of supported pixel formats and the lookup by fourcc
    (driver/virtual_video.c, `format[]` and `format_by_fourcc`). */
module Formats {
  import opened Common

  datatype PixelFormat = PixelFormat(name: string, fourcc: u32, depth: nat)

  /** v4l2_fourcc(a, b, c, d): the four characters packed little-endian into 32 bits. */
  function FourCC(a: char, b: char, c: char, d: char): (r: u32)
    requires a as int < 256 && b as int < 256 && c as int < 256 && d as int < 256
    ensures r % 256 == a as int && (r / 256) % 256 == b as int
    ensures (r / 0x1_0000) % 256 == c as int && r / 0x100_0000 == d as int
  {
    Pack(a as int, b as int, c as int, d as int);
    a as int + 0x100 * b as int + 0x1_0000 * c as int + 0x100_0000 * d as int
  }

  /** Four bytes packed least significant first come back out by division and remainder. */
  lemma Pack(a: int, b: int, c: int, d: int)
    requires 0 <= a < 256 && 0 <= b < 256 && 0 <= c < 256 && 0 <= d < 256
    ensures var v := a + 0x100 * b + 0x1_0000 * c + 0x100_0000 * d;
      0 <= v < TWO32 && v % 256 == a && (v / 256) % 256 == b && (v / 0x1_0000) % 256 == c && v / 0x100_0000 == d
  {
    var v := a + 0x100 * b + 0x1_0000 * c + 0x100_0000 * d;
    var q1 := c + 0x100 * d;
    var q0 := b + 0x100 * q1;
    assert v == a + 0x100 * q0;
    assert v / 256 == q0 && v % 256 == a;
    assert v == (a + 0x100 * b) + 0x1_0000 * q1;
    assert v / 0x1_0000 == q1 && q1 % 256 == c;
    assert v == (a + 0x100 * b + 0x1_0000 * c) + 0x100_0000 * d;
  }

  /** V4L2_PIX_FMT_RGB32 = v4l2_fourcc('R','G','B','4'), V4L2_PIX_FMT_BGR32 = v4l2_fourcc('B','G','R','4'). */
  const RGB32: u32 := FourCC('R', 'G', 'B', '4')
  const BGR32: u32 := FourCC('B', 'G', 'R', '4')

  /** The two live entries of `format[]`; the YUYV and UYVY entries are commented out in the source. */
  const Table: seq<PixelFormat> := [
    PixelFormat("ARGB8888, 32 bpp", RGB32, 32),
    PixelFormat("32 bpp RGB, be", BGR32, 32)
  ]

  /** `format_by_fourcc`: the index of the first table entry whose fourcc equals the argument,
      or None (the source's NULL) when there is none. */
  method FormatByFourcc(fourcc: u32) returns (r: Option<nat>)
    ensures r.Some? ==> r.value < |Table| && Table[r.value].fourcc == fourcc
    ensures r.Some? ==> forall j :: 0 <= j < r.value ==> Table[j].fourcc != fourcc
    ensures r.None? <==> forall j :: 0 <= j < |Table| ==> Table[j].fourcc != fourcc
  {
    var i := 0;
    while i < |Table|
      invariant 0 <= i <= |Table|
      invariant forall j :: 0 <= j < i ==> Table[j].fourcc != fourcc
    {
      if Table[i].fourcc == fourcc {
        return Some(i);
      }
      i := i + 1;
    }
    return None;
  }

  /** Every entry of the table is a 32-bit-per-pixel format, and the two fourccs differ,
      so a lookup finds at most one entry. */
  lemma TableShape()
    ensures forall j :: 0 <= j < |Table| ==> Table[j].depth == 32
    ensures Table[0].fourcc != Table[1].fourcc
    ensures Table[0].fourcc == RGB32 && Table[1].fourcc == BGR32
  {
  }
}
