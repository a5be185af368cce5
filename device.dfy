/** The driver side of the virtual capture device (driver/virtual_video.c): the device
    context, its buffer records and the videobuf callbacks, the open/release rule, the
    format ioctls and the producer tick. */
module VirtualVideo {
  import opened Common
  import opened Formats
  import opened TestPattern

  /** Constants of the Video for Linux API (linux/videodev2.h) that the driver uses. */
  const V4L2_BUF_TYPE_VIDEO_CAPTURE: u32 := 1
  const V4L2_FIELD_INTERLACED: u32 := 4
  const V4L2_COLORSPACE_SMPTE170M: u32 := 1
  const V4L2_CAP_VIDEO_CAPTURE: bv32 := 0x0000_0001
  const V4L2_CAP_STREAMING: bv32 := 0x0400_0000
  const V4L2_CAP_DEVICE_CAPS: bv32 := 0x8000_0000

  /** Minimum and default number of buffers, and the video memory limit in MiB. */
  const ELMO_VIDEO_MIN_BUF: nat := 4
  const ELMO_VIDEO_DEF_BUF: nat := 8
  const VID_LIMIT: nat := 16
  const VidLimitBytes: nat := VID_LIMIT * 1024 * 1024

  /** The resolution and format every successful open installs. */
  const DEFAULT_WIDTH: u32 := 800
  const DEFAULT_HEIGHT: u32 := 480

  /** The videobuf states the driver's callbacks read or write. */
  datatype BufState = NeedsInit | Prepared | Queued | Done

  /** `depth * width * height >> 3` evaluated in 32-bit unsigned arithmetic. */
  function FrameSize(depth: nat, width: u32, height: u32): (r: u32)
  {
    Wrap32(depth * width * height) / 8
  }

  /** The frame size is below 2^29 whatever the depth and resolution, since the shift applies
      to the 32-bit product: the tick's signed `int size` always holds it unchanged. */
  lemma FrameSizeFitsInt(depth: nat, width: u32, height: u32)
    ensures 0 <= FrameSize(depth, width, height) < 0x2000_0000
  {
  }

  /** For a 32-bit format the frame is a whole number of 4-byte pixels, and without
      overflow it is exactly four bytes per pixel. */
  lemma {:induction false} FrameSize32(width: u32, height: u32)
    ensures FrameSize(32, width, height) % 4 == 0
    ensures 32 * width * height < TWO32 ==> FrameSize(32, width, height) == 4 * width * height
  {
    var m := width * height;
    assert 32 * width * height == 32 * m && 4 * width * height == 4 * m;
    WrapTimes32(m);
  }

  /** `32 * m` reduced modulo 2^32 and divided by 8 is a multiple of 4, and `4 * m` when
      nothing wraps. */
  lemma WrapTimes32(m: nat)
    ensures Wrap32(32 * m) / 8 % 4 == 0
    ensures 32 * m < TWO32 ==> Wrap32(32 * m) / 8 == 4 * m
  {
    var q := 32 * m / TWO32;
    assert 32 * m == TWO32 * q + Wrap32(32 * m);
    assert Wrap32(32 * m) == 32 * (m - 0x800_0000 * q);
  }

  /** The count `buffer_setup` starts its decrement loop from. */
  function ClampRequest(count: u32): (c: nat)
  {
    if count == 0 then ELMO_VIDEO_DEF_BUF
    else if count < ELMO_VIDEO_MIN_BUF then ELMO_VIDEO_MIN_BUF
    else count
  }

  /** The loop condition of `buffer_setup`, negated: the 32-bit product is within the limit. */
  predicate Fits(count: nat, size: u32) {
    Wrap32(size * count) <= VidLimitBytes
  }

  /** Without 32-bit overflow, the count `buffer_setup` settles on is the largest count not
      above the clamped request whose frames fit in the limit: all of the request when it
      fits, none when a single frame is too large. */
  lemma {:induction false} SetupCountIsLargestFit(count: u32, size: u32, r: nat)
    requires r <= ClampRequest(count) && Fits(r, size)
    requires forall c :: r < c <= ClampRequest(count) ==> !Fits(c, size)
    requires ClampRequest(count) * size < TWO32
    ensures r * size <= VidLimitBytes
    ensures forall c :: r < c <= ClampRequest(count) ==> c * size > VidLimitBytes
    ensures ClampRequest(count) * size <= VidLimitBytes ==> r == ClampRequest(count)
    ensures size > VidLimitBytes ==> r == 0
  {
    var n := ClampRequest(count);
    assert r * size <= n * size by { MulMono(r, n, size); }
    forall c | r < c <= n ensures c * size > VidLimitBytes {
      MulMono(c, n, size);
      assert !Fits(c, size);
    }
    if r < n {
      assert n * size > VidLimitBytes;
    }
    if size > VidLimitBytes && r > 0 {
      MulMono(1, r, size);
    }
  }

  /** The metadata of one videobuf buffer, as a value. */
  datatype BufMeta = BufMeta(state: BufState, size: u32, width: u32, height: u32,
                             field: u32, fieldCount: u32, ts: int)

  /** A `struct videobuf_buffer` as far as the driver touches it. `baddr`/`bsize` describe a
      user-supplied buffer (0 when there is none); `data` is the buffer's vmalloc memory. */
  class VideoBuffer {
    var state: BufState
    var size: u32
    var width: u32
    var height: u32
    var field: u32
    var fieldCount: u32
    var ts: int
    const baddr: nat
    const bsize: nat
    const data: array<byte>

    constructor (baddr: nat, bsize: nat, data: array<byte>)
      ensures this.baddr == baddr && this.bsize == bsize && this.data == data
      ensures Meta() == BufMeta(NeedsInit, 0, 0, 0, 0, 0, 0)
    {
      this.baddr, this.bsize, this.data := baddr, bsize, data;
      state, size, width, height, field, fieldCount, ts := NeedsInit, 0, 0, 0, 0, 0, 0;
    }

    function Meta(): BufMeta
      reads this
    {
      BufMeta(state, size, width, height, field, fieldCount, ts)
    }
  }

  /** The fields of `struct v4l2_pix_format` the format ioctls read and write. */
  datatype PixFormat = PixFormat(width: u32, height: u32, pixelformat: u32, field: u32,
                                 bytesperline: u32, sizeimage: u32, colorspace: u32)

  /** `struct v4l2_fmtdesc` as filled by enum_fmt. */
  datatype FmtDesc = FmtDesc(index: u32, description: string, pixelformat: u32)

  /** `struct v4l2_capability` as filled by querycap. */
  datatype Capability = Capability(driver: string, card: string, busInfo: string, version: u32,
                                   capabilities: bv32, deviceCaps: bv32)

  /** VIDIOC_QUERYCAP: a capture device with streaming I/O that reports its device caps. */
  function QueryCap(): (cap: Capability)
    ensures cap.deviceCaps & V4L2_CAP_VIDEO_CAPTURE != 0 && cap.deviceCaps & V4L2_CAP_STREAMING != 0
    ensures cap.capabilities & cap.deviceCaps == cap.deviceCaps
    ensures cap.capabilities & V4L2_CAP_DEVICE_CAPS != 0 && cap.deviceCaps & V4L2_CAP_DEVICE_CAPS == 0
    ensures cap.driver == cap.card == cap.busInfo == "virtual_video" && cap.version == 1
  {
    var dc := V4L2_CAP_STREAMING | V4L2_CAP_VIDEO_CAPTURE;
    Capability("virtual_video", "virtual_video", "virtual_video", 1, dc | V4L2_CAP_DEVICE_CAPS, dc)
  }

  /** VIDIOC_ENUM_FMT: the table entry at `index`, or -EINVAL past the end. The entry
      reported is the one a lookup of its fourcc finds. */
  function EnumFmt(index: u32): (r: Result<FmtDesc>)
    ensures r.Err? <==> index >= |Table|
    ensures r.Err? ==> r.code == -EINVAL
    ensures r.Ok? ==> r.value.pixelformat == Table[index].fourcc && r.value.description == Table[index].name
    ensures r.Ok? ==> forall j :: 0 <= j < index ==> Table[j].fourcc != r.value.pixelformat
  {
    if index >= |Table| then Err(-EINVAL)
    else Ok(FmtDesc(index, Table[index].name, Table[index].fourcc))
  }

  /** The buffer-type check of VIDIOC_REQBUFS; a passing request goes on to the videobuf core. */
  function ReqbufsTypeCheck(bufType: u32): (ret: int)
    ensures ret == 0 <==> bufType == V4L2_BUF_TYPE_VIDEO_CAPTURE
    ensures ret != 0 ==> ret == -EINVAL
  {
    if bufType != V4L2_BUF_TYPE_VIDEO_CAPTURE then -EINVAL else 0
  }

  /** The single `struct virtual_video` with the videobuf buffers it owns. `fmt` is an index
      into the format table, None standing for a NULL `dev->fmt`; `queued` replaces the
      intrusive list of buffers waiting for the producer; `queueField` is `vb_vidq.field`;
      `timerArmed` says whether the tick timer is pending. */
  class DeviceContext {
    var ioUsrs: u32
    var fourcc: u32
    var width: u32
    var height: u32
    var fmt: Option<nat>
    var queueField: u32
    var timerArmed: bool
    var queued: seq<nat>
    const bufs: array<VideoBuffer>

    ghost predicate Valid()
      reads this, bufs
    {
      (fmt.Some? ==> fmt.value < |Table|) &&
      (forall k :: 0 <= k < |queued| ==> queued[k] < bufs.Length) &&
      (forall i, j :: 0 <= i < j < bufs.Length ==> bufs[i] != bufs[j] && bufs[i].data != bufs[j].data) &&
      (forall i :: 0 <= i < bufs.Length ==> bufs[i].data as object != bufs)
    }

    /** The buffer records, and their memory. */
    ghost function Buffers(): set<object>
      reads this, bufs
    {
      set i | 0 <= i < bufs.Length :: bufs[i]
    }

    ghost function Memory(): set<object>
      reads this, bufs
    {
      set i | 0 <= i < bufs.Length :: bufs[i].data
    }

    /** The relation the videobuf core keeps between the list and the states: a buffer is
        on the list, once, exactly when it is QUEUED. */
    ghost predicate QueueConsistent()
      reads this, bufs, Buffers()
    {
      Valid() &&
      (forall a, b :: 0 <= a < b < |queued| ==> queued[a] != queued[b]) &&
      (forall i :: 0 <= i < bufs.Length ==> (bufs[i].state == Queued <==> i in queued))
    }

    /** The zeroed device of `virtual_video_init` (kzalloc, io_usrs = 0, an empty list),
        given the pool of buffers the videobuf core provides. */
    constructor (pool: array<VideoBuffer>)
      requires forall i, j :: 0 <= i < j < pool.Length ==> pool[i] != pool[j] && pool[i].data != pool[j].data
      requires forall i :: 0 <= i < pool.Length ==> pool[i].data as object != pool
      ensures Valid() && bufs == pool
      ensures ioUsrs == 0 && fourcc == 0 && width == 0 && height == 0 && fmt == None
      ensures queueField == 0 && !timerArmed && queued == []
      ensures (forall i :: 0 <= i < pool.Length ==> pool[i].state != Queued) ==> QueueConsistent()
    {
      bufs := pool;
      ioUsrs, fourcc, width, height, fmt := 0, 0, 0, 0, None;
      queueField, timerArmed, queued := 0, false, [];
    }

    /** The frame size every buffer callback and the tick compute from the device. */
    function DeviceFrameSize(): (r: u32)
      reads this
      requires fmt.Some? && fmt.value < |Table|
    {
      FrameSize(Table[fmt.value].depth, width, height)
    }

    /** `buffer_setup`: the frame size, and the buffer count clamped to 8 for 0 and to at
        least 4, then decremented until the 32-bit product count * size is within the limit. */
    method BufferSetup(count: u32) returns (newCount: u32, size: u32)
      requires Valid() && fmt.Some?
      ensures size == DeviceFrameSize()
      ensures newCount <= ClampRequest(count) && Fits(newCount, size)
      ensures forall c :: newCount < c <= ClampRequest(count) ==> !Fits(c, size)
    {
      size := FrameSize(Table[fmt.value].depth, width, height);
      newCount := count;
      if newCount == 0 {
        newCount := ELMO_VIDEO_DEF_BUF;
      }
      if newCount < ELMO_VIDEO_MIN_BUF {
        newCount := ELMO_VIDEO_MIN_BUF;
      }
      while Wrap32(size * newCount) > VidLimitBytes
        invariant newCount <= ClampRequest(count)
        invariant forall c :: newCount < c <= ClampRequest(count) ==> !Fits(c, size)
        decreases newCount
      {
        newCount := newCount - 1;
      }
    }

    /** `buffer_prepare` for buffer `idx`, with `iolockRet` the result of `videobuf_iolock`. The
        size is stored before the user-buffer check, so it changes even when -EINVAL is returned. */
    method BufferPrepare(idx: nat, field: u32, iolockRet: int) returns (ret: int)
      requires Valid() && fmt.Some? && idx < bufs.Length
      modifies bufs[idx]
      ensures bufs[idx].size == DeviceFrameSize()
      ensures bufs[idx].fieldCount == old(bufs[idx].fieldCount) && bufs[idx].ts == old(bufs[idx].ts)
      ensures var b := bufs[idx];
        if b.baddr != 0 && b.bsize < b.size then
          ret == -EINVAL && b.state == old(b.state) && b.width == old(b.width) &&
          b.height == old(b.height) && b.field == old(b.field)
        else
          b.width == width && b.height == height && b.field == field &&
          if old(b.state) == NeedsInit && iolockRet < 0 then ret == iolockRet && b.state == NeedsInit
          else ret == 0 && b.state == Prepared
      ensures old(QueueConsistent()) && old(bufs[idx].state) != Queued ==> QueueConsistent()
    {
      var b := bufs[idx];
      b.size := FrameSize(Table[fmt.value].depth, width, height);
      if b.baddr != 0 && b.bsize < b.size {
        return -EINVAL;
      }
      b.width := width;
      b.height := height;
      b.field := field;
      if b.state == NeedsInit {
        if iolockRet < 0 {
          b.state := NeedsInit;
          return iolockRet;
        }
      }
      b.state := Prepared;
      return 0;
    }

    /** `buffer_queue`: the buffer becomes QUEUED and its index goes to the tail of the list. */
    method BufferQueue(idx: nat)
      requires Valid() && idx < bufs.Length && idx !in queued
      modifies this`queued, bufs[idx]
      ensures Valid()
      ensures queued == old(queued) + [idx]
      ensures bufs[idx].Meta() == old(bufs[idx].Meta()).(state := Queued)
      ensures old(QueueConsistent()) && old(bufs[idx].state) != Queued ==> QueueConsistent()
    {
      bufs[idx].state := Queued;
      queued := queued + [idx];
    }

    /** `buffer_release`: the buffer goes back to NEEDS_INIT (its memory is freed by the core). */
    method BufferRelease(idx: nat)
      requires Valid() && idx < bufs.Length
      modifies bufs[idx]
      ensures bufs[idx].Meta() == old(bufs[idx].Meta()).(state := NeedsInit)
      ensures old(QueueConsistent()) && old(bufs[idx].state) != Queued ==> QueueConsistent()
    {
      bufs[idx].state := NeedsInit;
    }

    /** `virtual_video_fops_open`, with `allocOk` the outcome of kzalloc of the file handle. */
    method Open(allocOk: bool) returns (ret: int)
      requires Valid()
      modifies this
      ensures Valid()
      ensures old(ioUsrs) != 0 ==> ret == -EBUSY && unchanged(this)
      ensures old(ioUsrs) == 0 && !allocOk ==> ret == -ENOMEM && unchanged(this)
      ensures old(ioUsrs) == 0 && allocOk ==>
        ret == 0 && ioUsrs == 1 && width == DEFAULT_WIDTH && height == DEFAULT_HEIGHT &&
        fourcc == RGB32 && fmt == Some(0) && queueField == V4L2_FIELD_INTERLACED &&
        timerArmed && queued == old(queued)
    {
      if ioUsrs != 0 {
        return -EBUSY;
      }
      ioUsrs := ioUsrs + 1;
      if !allocOk {
        ioUsrs := ioUsrs - 1;
        return -ENOMEM;
      }
      width := DEFAULT_WIDTH;
      height := DEFAULT_HEIGHT;
      fourcc := Table[0].fourcc;
      fmt := FormatByFourcc(fourcc);
      queueField := V4L2_FIELD_INTERLACED;
      timerArmed := true;
      return 0;
    }

    /** `virtual_video_fops_release`: one user fewer (32-bit unsigned) and the timer deleted. */
    method Release()
      requires Valid()
      modifies this`ioUsrs, this`timerArmed
      ensures Valid()
      ensures ioUsrs == Wrap32(old(ioUsrs) - 1) && !timerArmed
    {
      ioUsrs := Wrap32(ioUsrs - 1);
      timerArmed := false;
    }

    /** VIDIOC_G_FMT: the device's resolution, field and format, with the line and image
        sizes computed in 32-bit arithmetic. */
    method GetFmt() returns (f: PixFormat)
      requires Valid() && fmt.Some?
      ensures f.width == width && f.height == height && f.field == queueField
      ensures f.pixelformat == Table[fmt.value].fourcc && f.colorspace == V4L2_COLORSPACE_SMPTE170M
      ensures f.bytesperline == Wrap32(width * Table[fmt.value].depth) / 8
      ensures f.sizeimage == Wrap32(height * f.bytesperline)
    {
      var bpl := Wrap32(width * Table[fmt.value].depth) / 8;
      f := PixFormat(width, height, Table[fmt.value].fourcc, queueField,
                     bpl, Wrap32(height * bpl), V4L2_COLORSPACE_SMPTE170M);
    }

    /** VIDIOC_TRY_FMT: -EINVAL for an unknown fourcc (the request is left as it was);
        otherwise the device's resolution with the width forced even, whatever the request
        proposed, and the sizes for the requested format. The device is not changed. */
    method TryFmt(f: PixFormat) returns (ret: int, out: PixFormat)
      requires Valid()
      ensures ret == 0 || ret == -EINVAL
      ensures ret == -EINVAL <==> forall j :: 0 <= j < |Table| ==> Table[j].fourcc != f.pixelformat
      ensures ret == -EINVAL ==> out == f
      ensures ret == 0 ==>
        out.width % 2 == 0 && out.width <= width && out.width + 1 >= width &&
        out.height == height && out.pixelformat == f.pixelformat &&
        out.field == V4L2_FIELD_INTERLACED && out.colorspace == V4L2_COLORSPACE_SMPTE170M &&
        out.bytesperline == Wrap32(out.width * 32) / 8 &&
        out.sizeimage == Wrap32(out.height * out.bytesperline)
    {
      var r := FormatByFourcc(f.pixelformat);
      if r.None? {
        return -EINVAL, f;
      }
      var depth := Table[r.value].depth;
      assert depth == 32 by { TableShape(); }
      var w: u32 := width - width % 2;
      var bpl := Wrap32(w * depth) / 8;
      out := f.(width := w, height := height, field := V4L2_FIELD_INTERLACED,
                bytesperline := bpl, sizeimage := Wrap32(height * bpl),
                colorspace := V4L2_COLORSPACE_SMPTE170M);
      ret := 0;
    }

    /** VIDIOC_S_FMT: installs the request without any validation; an unknown fourcc leaves
        `fmt` None (a NULL format). */
    method SetFmt(f: PixFormat) returns (ret: int)
      requires Valid()
      modifies this`fmt, this`width, this`height, this`queueField, this`fourcc
      ensures Valid() && ret == 0
      ensures width == f.width && height == f.height && queueField == f.field && fourcc == f.pixelformat
      ensures fmt.Some? ==> Table[fmt.value].fourcc == f.pixelformat
      ensures fmt.None? <==> forall j :: 0 <= j < |Table| ==> Table[j].fourcc != f.pixelformat
    {
      fmt := FormatByFourcc(f.pixelformat);
      width := f.width;
      height := f.height;
      queueField := f.field;
      fourcc := f.pixelformat;
      return 0;
    }

    /** VIDIOC_STREAMOFF: the handler does nothing (its timer deletion is commented out). */
    method StreamOff() returns (ret: int)
      ensures ret == 0
    {
      return 0;
    }

    /** The work of the tick on the head buffer `h` (lines 551-597): the test pattern in its
        first frame-size bytes, the field count bumped in 32 bits, the timestamp set, DONE. */
    method Produce(h: nat, now: int)
      requires Valid() && fmt.Some? && h < bufs.Length && DeviceFrameSize() <= bufs[h].data.Length
      modifies bufs[h], bufs[h].data
      ensures bufs[h].Meta() == old(bufs[h].Meta()).(state := Done, fieldCount := Wrap32(old(bufs[h].fieldCount) + 1), ts := now)
      ensures bufs[h].data[..] == Filled(old(bufs[h].data[..]), Table[fmt.value].fourcc, DeviceFrameSize())
    {
      var vb := bufs[h];
      var format := Table[fmt.value];
      assert format.depth == 32 by { TableShape(); }
      var size := FrameSize(format.depth, width, height);
      assert size % 4 == 0 by { FrameSize32(width, height); }
      ghost var before := vb.data[..];
      FillTestPattern(vb.data, size, format.fourcc);
      ghost var after := vb.data[..];
      assert after == Filled(before, format.fourcc, size);
      vb.fieldCount := Wrap32(vb.fieldCount + 1);
      vb.ts := now;
      vb.state := Done;
    }

    /** `tick_timer_function`, with `waiter` the answer of `waitqueue_active` for the head
        buffer and `now` the timestamp. With an empty list or no waiter only the timer is
        re-armed; otherwise the head buffer is produced (see Produce) and leaves the list. */
    method Tick(waiter: bool, now: int) returns (filled: bool)
      requires Valid()
      requires queued != [] && waiter ==>
        fmt.Some? && DeviceFrameSize() <= bufs[queued[0]].data.Length
      modifies this`queued, this`timerArmed, Buffers(), Memory()
      ensures Valid() && timerArmed
      ensures filled <==> old(queued) != [] && waiter
      ensures !filled ==> queued == old(queued)
      ensures !filled ==> forall i :: 0 <= i < bufs.Length ==>
        bufs[i].Meta() == old(bufs[i].Meta()) && bufs[i].data[..] == old(bufs[i].data[..])
      ensures filled ==> queued == old(queued)[1..]
      ensures filled ==> var h := old(queued)[0];
        bufs[h].Meta() == old(bufs[h].Meta()).(state := Done, fieldCount := Wrap32(old(bufs[h].fieldCount) + 1), ts := now) &&
        bufs[h].data[..] == Filled(old(bufs[h].data[..]), Table[fmt.value].fourcc, DeviceFrameSize())
      ensures filled ==> forall i :: 0 <= i < bufs.Length && i != old(queued)[0] ==>
        bufs[i].Meta() == old(bufs[i].Meta()) && bufs[i].data[..] == old(bufs[i].data[..])
      ensures old(QueueConsistent()) ==> QueueConsistent()
    {
      if queued == [] {
        timerArmed := true;
        return false;
      }
      var h := queued[0];
      if !waiter {
        timerArmed := true;
        return false;
      }
      assert bufs[h] in Buffers() && bufs[h].data in Memory();
      Produce(h, now);
      queued := queued[1..];
      timerArmed := true;
      filled := true;
    }
  }

  /** After a successful open and its release, the next open succeeds again. */
  method ReopenAfterRelease(dev: DeviceContext)
    requires dev.Valid() && dev.ioUsrs == 0
    modifies dev
    ensures dev.Valid() && dev.ioUsrs == 1 && dev.timerArmed
  {
    var r := dev.Open(true);
    assert r == 0 && dev.ioUsrs == 1;
    var busy := dev.Open(true);
    assert busy == -EBUSY;
    dev.Release();
    r := dev.Open(true);
    assert r == 0;
  }
}
