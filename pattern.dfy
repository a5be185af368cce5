/** The test pattern that `tick_timer_function` writes into the head buffer
    (driver/virtual_video.c:551-592): three bands of solid 4-byte pixels whose byte
    order depends on the active format. */
module TestPattern {
  import opened Common
  import opened Formats

  /** The four bytes the tick stores for every pixel of band `band` (0, 1 or 2). */
  function BandQuad(fourcc: u32, band: nat): (q: seq<byte>)
    requires band < 3
    ensures |q| == 4
  {
    if fourcc == RGB32 then
      [[0x00, 0x00, 0x00, 0xff], [0x00, 0x00, 0xff, 0x00], [0x00, 0xff, 0x00, 0x00]][band]
    else
      [[0xff, 0x00, 0x00, 0xff], [0x00, 0xff, 0x00, 0xff], [0x00, 0x00, 0xff, 0xff]][band]
  }

  /** Which band the pixel starting at byte offset `p` falls in, for `step = size / 3`:
      the first loop runs while i < step, the second while i < 2 * step, the third up to size. */
  function BandOf(p: nat, step: nat): (b: nat)
    ensures b < 3
  {
    if p < step then 0 else if p < 2 * step then 1 else 2
  }

  /** Whether the tick writes a pattern at all for this fourcc (it has branches for two formats only). */
  predicate Patterned(fourcc: u32) {
    fourcc == RGB32 || fourcc == BGR32
  }

  /** The frame after the fill: `before` with the pattern in its first `size` bytes (for a
      patterned format) and every other byte kept. */
  function Filled(before: seq<byte>, fourcc: u32, size: nat): (after: seq<byte>)
    requires size <= |before|
    ensures |after| == |before|
  {
    seq(|before|, j requires 0 <= j < |before| =>
      if j < size && Patterned(fourcc) then BandQuad(fourcc, BandOf(j - j % 4, size / 3))[j % 4]
      else before[j])
  }

  /** The smallest multiple of four that is at least `x`: where a `for (; i < x; i += 4)` loop
      started at a multiple of four below `x` stops. */
  function Ceil4(x: nat): (c: nat)
    ensures c % 4 == 0 && x <= c < x + 4
  {
    (x + 3) / 4 * 4
  }

  /** A multiple of four at least `x` is at least `Ceil4(x)`; a multiple of four is its own
      Ceil4. */
  lemma Ceil4Within(x: nat, m: nat)
    requires m % 4 == 0 && x <= m
    ensures Ceil4(x) <= m && (x == m ==> Ceil4(x) == m)
  {
    var c, k := (x + 3) / 4, m / 4;
    assert m == 4 * k;
    assert 4 * c <= x + 3 < 4 * c + 4;
  }

  /** `s` with quad `q` repeated over the bytes from `lo` up to `hi`. */
  function Painted(s: seq<byte>, lo: nat, hi: nat, q: seq<byte>): (r: seq<byte>)
    requires |q| == 4
    ensures |r| == |s|
  {
    seq(|s|, j requires 0 <= j < |s| => if lo <= j < hi then q[j % 4] else s[j])
  }

  /** One of the tick's `for (; i < end; i += 4)` loops: writes quad `q` at the pixels from `i0`
      up to the first multiple of four not below `end`, and returns where `i` stops. */
  method FillBand(vbuf: array<byte>, i0: nat, end: nat, q: seq<byte>) returns (i: nat)
    requires |q| == 4 && i0 % 4 == 0
    requires Ceil4(end) <= vbuf.Length
    modifies vbuf
    ensures i == if i0 < end then Ceil4(end) else i0
    ensures vbuf[..] == Painted(old(vbuf[..]), i0, i, q)
  {
    i := i0;
    while i < end
      invariant i0 <= i && i % 4 == 0
      invariant i0 < end ==> i <= Ceil4(end)
      invariant i0 >= end ==> i == i0
      invariant forall j :: i0 <= j < i ==> vbuf[j] == q[j % 4]
      invariant forall j :: 0 <= j < vbuf.Length && !(i0 <= j < i) ==> vbuf[j] == old(vbuf[j])
    {
      vbuf[i] := q[0];
      vbuf[i + 1] := q[1];
      vbuf[i + 2] := q[2];
      vbuf[i + 3] := q[3];
      i := i + 4;
    }
    ghost var painted := Painted(old(vbuf[..]), i0, i, q);
    assert forall j :: 0 <= j < vbuf.Length ==> vbuf[j] == painted[j];
  }

  /** The fill of lines 552-592: for RGB32 and BGR32 the three chained loops sharing `i`;
      for any other fourcc nothing is written. */
  method FillTestPattern(vbuf: array<byte>, size: nat, fourcc: u32)
    requires size % 4 == 0 && size <= vbuf.Length
    modifies vbuf
    ensures vbuf[..] == Filled(old(vbuf[..]), fourcc, size)
  {
    var step := size / 3;
    if fourcc == RGB32 || fourcc == BGR32 {
      Ceil4Within(step, size);
      Ceil4Within(2 * step, size);
      Ceil4Within(size, size);
      ghost var v0 := vbuf[..];
      var i := FillBand(vbuf, 0, step, BandQuad(fourcc, 0));
      ghost var b1 := i;
      i := FillBand(vbuf, i, step * 2, BandQuad(fourcc, 1));
      ghost var b2 := i;
      i := FillBand(vbuf, i, size, BandQuad(fourcc, 2));
      ThreeBands(v0, fourcc, size, b1, b2, i);
    } else {
      assert vbuf[..] == Filled(old(vbuf[..]), fourcc, size);
    }
  }

  /** Painting the three bands up to the loops' stopping points gives the pattern. */
  lemma ThreeBands(v0: seq<byte>, fourcc: u32, size: nat, b1: nat, b2: nat, b3: nat)
    requires Patterned(fourcc) && size % 4 == 0 && size <= |v0|
    requires b1 == Ceil4(size / 3)
    requires b2 == if b1 < 2 * (size / 3) then Ceil4(2 * (size / 3)) else b1
    requires b3 == if b2 < size then Ceil4(size) else b2
    requires b3 == size
    ensures Painted(Painted(Painted(v0, 0, b1, BandQuad(fourcc, 0)), b1, b2, BandQuad(fourcc, 1)), b2, b3, BandQuad(fourcc, 2))
            == Filled(v0, fourcc, size)
  {
    var step := size / 3;
    var v1 := Painted(v0, 0, b1, BandQuad(fourcc, 0));
    var v2 := Painted(v1, b1, b2, BandQuad(fourcc, 1));
    var v3 := Painted(v2, b2, b3, BandQuad(fourcc, 2));
    forall j | 0 <= j < |v0|
      ensures v3[j] == Filled(v0, fourcc, size)[j]
    {
      if j < size {
        BandOfPixel(j, step, b1, b2);
      }
    }
  }

  /** The band boundaries the loops stop at agree with BandOf on the pixel containing `j`. */
  lemma BandOfPixel(j: nat, step: nat, b1: nat, b2: nat)
    requires b1 == Ceil4(step)
    requires b2 == if b1 < 2 * step then Ceil4(2 * step) else b1
    ensures BandOf(j - j % 4, step) == if j < b1 then 0 else if j < b2 then 1 else 2
  {
    PixelBelow(j, step);
    PixelBelow(j, 2 * step);
  }

  /** A pixel starts below `x` exactly when its bytes lie below the multiple of four that
      ends the loop `for (; i < x; i += 4)`. */
  lemma PixelBelow(j: nat, x: nat)
    ensures (j - j % 4 < x) <==> (j < Ceil4(x))
  {
    var a, c := j / 4, (x + 3) / 4;
    assert j - j % 4 == 4 * a;
    assert Ceil4(x) == 4 * c;
    assert x <= 4 * c < x + 4;
  }

  /** The two byte orders stated beside the table entries (lines 73 and 77). */
  datatype Rgba = Rgba(r: byte, g: byte, b: byte, a: byte)

  function Channels(fourcc: u32, q: seq<byte>): (c: Rgba)
    requires |q| == 4 && Patterned(fourcc)
  {
    if fourcc == RGB32 then Rgba(q[1], q[2], q[3], q[0]) else Rgba(q[2], q[1], q[0], q[3])
  }

  /** Read through its own channel order, each format shows blue, then green, then red. */
  lemma BandColors(fourcc: u32)
    requires Patterned(fourcc)
    ensures Channels(fourcc, BandQuad(fourcc, 0)).r == 0 && Channels(fourcc, BandQuad(fourcc, 0)).g == 0
    ensures Channels(fourcc, BandQuad(fourcc, 0)).b == 0xff
    ensures Channels(fourcc, BandQuad(fourcc, 1)).r == 0 && Channels(fourcc, BandQuad(fourcc, 1)).g == 0xff
    ensures Channels(fourcc, BandQuad(fourcc, 1)).b == 0
    ensures Channels(fourcc, BandQuad(fourcc, 2)).r == 0xff && Channels(fourcc, BandQuad(fourcc, 2)).g == 0
    ensures Channels(fourcc, BandQuad(fourcc, 2)).b == 0
  {
  }
}
