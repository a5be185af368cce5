/** The pixel transform shared by the BMP writer and reader (app/bitmap.c:102-116 and
    206-217): rows taken in reverse order, the four bytes of every pixel reversed. */
module BmpPixels {
  import opened Common

  /** The bytes of a row with each 4-byte pixel reversed: [p3, p2, p1, p0] from [p0, p1, p2, p3]. */
  function SwapPixels(line: seq<byte>): (r: seq<byte>)
    requires |line| % 4 == 0
    ensures |r| == |line| && |r| % 4 == 0
  {
    seq(|line|, k requires 0 <= k < |line| => line[PixelMirror(k, |line|)])
  }

  /** The byte offset within the row that the reversal reads for offset `k`. */
  function PixelMirror(k: nat, n: nat): (m: nat)
    requires k < n && n % 4 == 0
    ensures m < n && m - m % 4 == k - k % 4 && m % 4 == 3 - k % 4
  {
    var p := k / 4;
    assert 4 * p + 4 <= n;
    4 * p + 3 - k % 4
  }

  /** A row whose every pixel holds the bytes of the same pixel of `row` in reverse order is
      `row` with its pixels swapped. */
  lemma PixelsSwapped(out: seq<byte>, row: seq<byte>, width: nat)
    requires |out| == |row| == 4 * width
    requires forall p :: 0 <= p < width ==>
      out[4 * p] == row[4 * p + 3] && out[4 * p + 1] == row[4 * p + 2] &&
      out[4 * p + 2] == row[4 * p + 1] && out[4 * p + 3] == row[4 * p]
    ensures out == SwapPixels(row)
  {
    forall k | 0 <= k < |row| ensures out[k] == SwapPixels(row)[k] {
      var p := k / 4;
      assert 4 * p <= k < 4 * p + 4;
      assert PixelMirror(k, |row|) == 4 * p + 3 - (k - 4 * p);
    }
  }

  /** Swapping the bytes of each pixel twice gives the row back. */
  lemma SwapPixelsInvolution(line: seq<byte>)
    requires |line| % 4 == 0
    ensures SwapPixels(SwapPixels(line)) == line
  {
    var once := SwapPixels(line);
    forall k | 0 <= k < |line| ensures SwapPixels(once)[k] == line[k] {
      var m := PixelMirror(k, |line|);
      assert PixelMirror(m, |line|) == k;
    }
  }

  /** `d` cut into `h` consecutive rows of `line` bytes. */
  function Rows(d: seq<byte>, line: nat, h: nat): (rs: seq<seq<byte>>)
    requires |d| == line * h
    ensures |rs| == h && forall i :: 0 <= i < h ==> |rs[i]| == line
    decreases h
  {
    if h == 0 then []
    else
      assert |d| == line * (h - 1) + line;
      [d[..line]] + Rows(d[line..], line, h - 1)
  }

  /** The rows laid end to end. */
  function Concat(rs: seq<seq<byte>>): (d: seq<byte>)
    decreases |rs|
  {
    if rs == [] then [] else rs[0] + Concat(rs[1..])
  }

  lemma {:induction false} ConcatSnoc(rs: seq<seq<byte>>, r: seq<byte>)
    ensures Concat(rs + [r]) == Concat(rs) + r
    decreases |rs|
  {
    if rs == [] {
      assert rs + [r] == [r];
    } else {
      assert (rs + [r])[1..] == rs[1..] + [r];
      ConcatSnoc(rs[1..], r);
    }
  }

  lemma ConcatPrefixStep(rs: seq<seq<byte>>, y: nat)
    requires y < |rs|
    ensures Concat(rs[..y + 1]) == Concat(rs[..y]) + rs[y]
  {
    assert rs[..y + 1] == rs[..y] + [rs[y]];
    ConcatSnoc(rs[..y], rs[y]);
  }

  lemma ConcatSuffixStep(rs: seq<seq<byte>>, r: nat)
    requires r < |rs|
    ensures Concat(rs[r..]) == rs[r] + Concat(rs[r + 1..])
  {
    assert rs[r..][1..] == rs[r + 1..];
  }

  lemma {:induction false} ConcatLength(rs: seq<seq<byte>>, line: nat)
    requires forall i :: 0 <= i < |rs| ==> |rs[i]| == line
    ensures |Concat(rs)| == line * |rs|
    decreases |rs|
  {
    if rs != [] {
      ConcatLength(rs[1..], line);
      assert line * |rs| == line * |rs[1..]| + line;
    }
  }

  /** Cutting into rows and laying them end to end are inverse to each other. */
  lemma {:induction false} ConcatRows(d: seq<byte>, line: nat, h: nat)
    requires |d| == line * h
    ensures Concat(Rows(d, line, h)) == d
    decreases h
  {
    if h > 0 {
      assert |d| == line * (h - 1) + line;
      ConcatRows(d[line..], line, h - 1);
      assert Rows(d, line, h)[1..] == Rows(d[line..], line, h - 1);
    }
  }

  lemma {:induction false} RowsConcat(rs: seq<seq<byte>>, line: nat)
    requires forall i :: 0 <= i < |rs| ==> |rs[i]| == line
    ensures |Concat(rs)| == line * |rs| && Rows(Concat(rs), line, |rs|) == rs
    decreases |rs|
  {
    ConcatLength(rs, line);
    if rs != [] {
      RowsConcat(rs[1..], line);
      var d := Concat(rs);
      assert d[..line] == rs[0];
      assert d[line..] == Concat(rs[1..]);
    }
  }

  /** Row `i` of `d` is the slice starting `i * line` bytes in. */
  lemma {:induction false} RowAt(d: seq<byte>, line: nat, h: nat, i: nat)
    requires |d| == line * h && i < h
    ensures 0 <= i * line && i * line + line <= |d| && Rows(d, line, h)[i] == d[i * line .. i * line + line]
    decreases h
  {
    MulStep(h - 1, line);
    MulStep(i - 1, line);
    MulMono(0, i, line);
    MulMono(i + 1, h, line);
    if i > 0 {
      RowAt(d[line..], line, h - 1, i - 1);
      DropSlice(d, line, (i - 1) * line, i * line);
    }
  }

  /** A sequence laid out as rows `k`, `k + 1`, ... from offset `at` on starts with row `k`. */
  lemma SplitFirst(s: seq<byte>, at: nat, rs: seq<seq<byte>>, k: nat, line: nat)
    requires at <= |s| && k < |rs| && |rs[k]| == line && s[at..] == Concat(rs[k..])
    ensures at + line <= |s| && s[at .. at + line] == rs[k] && s[at + line ..] == Concat(rs[k + 1 ..])
  {
    ConcatSuffixStep(rs, k);
    assert s[at .. at + line] == s[at..][..line];
    assert s[at + line ..] == s[at..][line..];
  }

  /** A prefix laid out as rows 0 to `k` ends with row `k`. */
  lemma SplitLast(s: seq<byte>, end: nat, rs: seq<seq<byte>>, k: nat, line: nat)
    requires end <= |s| && k < |rs| && |rs[k]| == line && s[..end] == Concat(rs[..k + 1])
    ensures line <= end && s[end - line .. end] == rs[k] && s[..end - line] == Concat(rs[..k])
  {
    ConcatPrefixStep(rs, k);
    var n := |Concat(rs[..k])|;
    assert s[end - line .. end] == s[..end][n..];
    assert s[..end - line] == s[..end][..n];
  }

  /** A slice of what follows the first `a` elements. */
  lemma DropSlice(d: seq<byte>, a: nat, i: nat, j: nat)
    requires a <= |d| && i <= j <= |d| - a
    ensures d[a..][i .. j] == d[a + i .. a + j]
  {
    assert forall k :: 0 <= k < j - i ==> d[a..][i .. j][k] == d[a + i + k];
  }

  /** The rows in reverse order, each with its pixels swapped. */
  function FlipRows(rs: seq<seq<byte>>): (fs: seq<seq<byte>>)
    requires forall i :: 0 <= i < |rs| ==> |rs[i]| % 4 == 0
    ensures |fs| == |rs|
    ensures forall i :: 0 <= i < |fs| ==> fs[i] == SwapPixels(rs[|rs| - 1 - i])
  {
    seq(|rs|, i requires 0 <= i < |rs| => SwapPixels(rs[|rs| - 1 - i]))
  }

  lemma FlipRowsInvolution(rs: seq<seq<byte>>)
    requires forall i :: 0 <= i < |rs| ==> |rs[i]| % 4 == 0
    ensures FlipRows(FlipRows(rs)) == rs
  {
    var fs := FlipRows(rs);
    forall i | 0 <= i < |rs| ensures FlipRows(fs)[i] == rs[i] {
      SwapPixelsInvolution(rs[i]);
    }
  }

  /** The whole transform on a buffer of `h` rows of `line` bytes. */
  function Flip(d: seq<byte>, line: nat, h: nat): (r: seq<byte>)
    requires |d| == line * h && line % 4 == 0
  {
    Concat(FlipRows(Rows(d, line, h)))
  }

  /** Row `y` of the transformed buffer is source row `h - 1 - y` with its pixels swapped:
      the bottom-up row order of a BMP. */
  lemma FlipRowAt(d: seq<byte>, line: nat, h: nat, y: nat)
    requires |d| == line * h && line % 4 == 0 && y < h
    ensures |Flip(d, line, h)| == |d|
    ensures 0 <= y * line && y * line + line <= |d|
    ensures 0 <= (h - 1 - y) * line && (h - 1 - y) * line + line <= |d|
    ensures Flip(d, line, h)[y * line .. y * line + line] ==
            SwapPixels(d[(h - 1 - y) * line .. (h - 1 - y) * line + line])
  {
    var fs := FlipRows(Rows(d, line, h));
    RowsConcat(fs, line);
    RowAt(Flip(d, line, h), line, h, y);
    RowAt(d, line, h, h - 1 - y);
  }

  /** The transform undoes itself, which is why the reader recovers what the writer stored. */
  lemma FlipInvolution(d: seq<byte>, line: nat, h: nat)
    requires |d| == line * h && line % 4 == 0
    ensures |Flip(d, line, h)| == |d| && Flip(Flip(d, line, h), line, h) == d
  {
    var fs := FlipRows(Rows(d, line, h));
    RowsConcat(fs, line);
    FlipRowsInvolution(Rows(d, line, h));
    ConcatRows(d, line, h);
  }
}
