# virtual_video in Dafny

A model of the two self-contained cores of the `virtual_video` project:

- **The driver side of a virtual V4L2 capture device** (`driver/virtual_video.c`). The model covers:
  - the single `struct virtual_video` as the class `VirtualVideo.DeviceContext`, holding the user count, resolution, active format, the queue of buffers waiting for the producer, and the pool of videobuf buffers (`VideoBuffer` records, each with its state, sizes, field count, timestamp and frame memory);
  - the format table and its lookup by fourcc;
  - the videobuf callbacks `buffer_setup`, `buffer_prepare`, `buffer_queue` and `buffer_release`;
  - the single-opener rule of open/release;
  - the format ioctls and the `reqbufs` buffer-type check;
  - the producer tick, which fills the head buffer with a three-band test pattern, stamps it, marks it DONE and takes it off the queue.
- **The BMP writer and reader of the test application** (`app/bitmap.c`). `GenBmpFile` builds the bytes of a BMP file from a 32-bit frame:
  - a 14-byte BITMAPFILEHEADER and a 40-byte BITMAPINFOHEADER, packed and little-endian;
  - then the rows bottom-up, with every pixel's four bytes reversed.

  `GetBmpData` parses the headers and undoes the pixel transform. Both are methods over arrays that move `pbmp`/`pbuf` row by row as the C code does. Each is proved equal to a specification function (`EncodeBmp`, `DecodeBmp`), and decoding is proved to invert encoding (`RoundTrip`); the converse direction is not stated.

Files:
- `common.dfy`: 32-bit wrap-around, error codes and Option/Result.
- `formats.dfy`: the format table.
- `pattern.dfy`: the tick's test-pattern fill.
- `device.dfy`: the device class.
- `bmp_layout.dfy`: header layout and row stride.
- `bmp_pixels.dfy`: rows, flip and pixel byte reversal.
- `bitmap.dfy`: encoder and decoder.

32-bit unsigned arithmetic is written out as reduction modulo 2^32 (`Wrap32`) wherever the C code computes in `u32`. This covers:
- the frame size `depth * width * height >> 3`;
- `size * count` in `buffer_setup`;
- `bytesperline` and `sizeimage`;
- `io_usrs--`;
- `field_count++`.

The model follows the code wherever it departs from what a capture device is expected to do:
- VIDIOC_STREAMOFF does nothing; the timer deletion is commented out.
- VIDIOC_S_FMT installs any request without validation. An unknown fourcc leaves a NULL format.
- VIDIOC_TRY_FMT ignores the proposed width and height and reports the device's own.
- The tick timer is armed at open, not at stream-on.
- Nothing in the driver rejects a resize while buffers are queued or a format change while streaming. Neither Open nor a release of a QUEUED buffer clears the queue of waiting buffers, so that buffer stays on the list.
- `buffer_prepare` stores the new size before its user-buffer check, so the size changes even when it returns -EINVAL.

## Model

| member | source | states |
|---|---|---|
| Formats.FormatByFourcc | driver/virtual_video.c:89-98 | returns the index of the first table entry whose fourcc equals the argument; None exactly when no entry matches |
| Formats.TableShape | driver/virtual_video.c:70-88 | the live table has two 32-bit formats, RGB32 then BGR32, with distinct fourccs |
| VirtualVideo.FrameSizeFitsInt | driver/virtual_video.c:534-552 | the tick's frame size, shifted after the 32-bit product, is below 2^29, so the signed `int size` holds it unchanged |
| VirtualVideo.FrameSize32 | driver/virtual_video.c:109 | for 32 bits per pixel the 32-bit frame size `32*w*h >> 3` is a multiple of 4, and equals `4*w*h` when the product does not wrap |
| VirtualVideo.DeviceContext.BufferSetup | driver/virtual_video.c:102-123 | size is the device's frame size; count is at most the clamped request (0 becomes 8, below 4 becomes 4), fits the 16 MiB limit in 32-bit arithmetic, and every larger count up to the clamped request does not fit |
| VirtualVideo.SetupCountIsLargestFit | driver/virtual_video.c:109-119 | without overflow, the settled count is the largest count not above the clamped request within the limit: all of it when the request fits, 0 when one frame exceeds the limit |
| VirtualVideo.DeviceContext.BufferPrepare | driver/virtual_video.c:125-162 | size always set from the device; user buffer too small gives -EINVAL with state, width, height and field unchanged; otherwise width/height/field copied; a failed iolock from NEEDS_INIT gives its error and NEEDS_INIT, else 0 and PREPARED; list/state consistency kept |
| VirtualVideo.DeviceContext.BufferQueue | driver/virtual_video.c:164-172 | for a buffer not already on the list: it becomes QUEUED with its other fields kept, its index is appended to the tail of the queue, earlier order kept; consistency kept |
| VirtualVideo.DeviceContext.BufferRelease | driver/virtual_video.c:174-181 | the buffer returns to NEEDS_INIT with its other fields kept |
| VirtualVideo.DeviceContext.constructor | driver/virtual_video.c:612-622 | the zeroed device: no users, no format, empty queue, timer not armed; queue-consistent when no pool buffer starts QUEUED |
| VirtualVideo.DeviceContext.Open | driver/virtual_video.c:189-231 | -EBUSY with nothing changed when a user is present; -ENOMEM with nothing changed when the handle allocation fails; otherwise 0, one user, 800x480 RGB32 interlaced, timer armed, queue kept |
| VirtualVideo.DeviceContext.Release | driver/virtual_video.c:233-248 | the user count drops by one in 32-bit arithmetic and the timer is deleted |
| VirtualVideo.ReopenAfterRelease | driver/virtual_video.c:197-241 | open succeeds on an idle device, a second open is refused with -EBUSY, and after release the next open succeeds |
| VirtualVideo.QueryCap | driver/virtual_video.c:309-322 | a streaming video-capture device whose capabilities contain its device caps plus DEVICE_CAPS; names "virtual_video", version 1 |
| VirtualVideo.EnumFmt | driver/virtual_video.c:324-334 | -EINVAL exactly when the index is past the table; otherwise the entry's name and fourcc, and no earlier entry has that fourcc |
| VirtualVideo.DeviceContext.GetFmt | driver/virtual_video.c:335-350 | the device's width, height, queue field and format fourcc, SMPTE170M, bytesperline `w*depth >> 3` and sizeimage `h*bytesperline` in 32 bits |
| VirtualVideo.DeviceContext.TryFmt | driver/virtual_video.c:351-377 | -EINVAL exactly when the fourcc is unknown (request untouched); otherwise the device's width with bit 0 cleared (even, at most it, at least it minus 1), its height, interlaced, SMPTE170M and the 32-bit line and image sizes; no device state changes |
| VirtualVideo.DeviceContext.SetFmt | driver/virtual_video.c:378-401 | returns 0 and installs width, height, field and fourcc as given; the format is the matching table entry, None exactly when none matches |
| VirtualVideo.ReqbufsTypeCheck | driver/virtual_video.c:411-414 | 0 exactly for the video-capture buffer type, -EINVAL otherwise |
| VirtualVideo.DeviceContext.StreamOff | driver/virtual_video.c:478-487 | returns 0 and changes nothing |
| VirtualVideo.DeviceContext.Produce | driver/virtual_video.c:551-597 | the buffer's memory is the test pattern for the format over the frame size with all other bytes kept; field count +1 in 32 bits, timestamp set, state DONE, other fields kept |
| VirtualVideo.DeviceContext.Tick | driver/virtual_video.c:529-603 | the timer is re-armed; with an empty queue or no waiter nothing else changes; otherwise the head leaves the queue with the rest in order, only the head buffer changes (as Produce states), and list/state consistency is kept |
| TestPattern.FillTestPattern | driver/virtual_video.c:552-592 | the buffer becomes `Filled`: for RGB32 and BGR32 every byte below size takes the band quad of the pixel it lies in; all other bytes, and every byte for other formats, are kept |
| TestPattern.FillBand | driver/virtual_video.c:555-560 | one `for (; i < end; i += 4)` loop: stops at the first multiple of 4 not below end (or does not run), writes the quad over exactly the bytes it passed, keeps the rest |
| TestPattern.ThreeBands | driver/virtual_video.c:553-591 | the three chained loops sharing `i` together paint exactly the pattern: 4-aligned band boundaries from `step = size/3`, the last band ending at size |
| TestPattern.BandOfPixel | driver/virtual_video.c:555-591 | the loops' stopping points agree with the band of the pixel that holds each byte |
| TestPattern.BandColors | driver/virtual_video.c:70-78 | read through the channel orders beside the table entries, both formats give a blue, then a green, then a red band |
| BmpLayout.StrideBounds | app/bitmap.c:63-65 | the row stride is a multiple of 4, holds `ceil(w*bpp/8)` bytes with under 4 bytes of padding, and is `4*w` for 32 bits per pixel |
| BmpLayout.ParseSerialize | app/bitmap.h:15-40 | reading back the packed little-endian headers, whatever follows them, gives every field that was written |
| BmpLayout.ParsePrefix | app/bitmap.c:153-164 | the two freads of 14 and 40 bytes read the same headers as the file's first 54 bytes |
| Bitmap.EncodedHeaders | app/bitmap.c:82-100 | the encoded file reads back as "BM" with bfSize equal to its length, reserved 0, bfOffBits 54, biSize 40, the input width and height, one plane, 32 bits, no compression, image size 0, 3780 pixels per metre, no palette |
| Bitmap.EncodedRows | app/bitmap.c:102-116 | cut into rows, the file's data are the source rows in reverse order, each with its pixel bytes reversed |
| BmpPixels.FlipRowAt | app/bitmap.c:102-116 | row `y` of the transformed buffer is source row `h-1-y` with its pixels reversed |
| BmpPixels.SwapPixelsInvolution | app/bitmap.c:108-111 | reversing the bytes of every pixel twice gives the row back |
| BmpPixels.FlipInvolution | app/bitmap.c:206-217 | the whole transform undoes itself |
| BmpPixels.PixelsSwapped | app/bitmap.c:107-112 | a row whose every pixel holds the bytes of the source pixel in reverse order is the source row with its pixels swapped |
| Bitmap.GenBmpFile | app/bitmap.c:33-123 | the bytes written are `EncodeBmp`: the headers, then the flipped rows |
| Bitmap.StoreRows | app/bitmap.c:102-116 | the row loop leaves the headers as they were and stores the source rows in reverse order with their pixels swapped |
| Bitmap.StoreRow | app/bitmap.c:105-116 | one pass stores the next source row (from the end) after the rows already stored and moves `pbuf` back a line |
| Bitmap.StoreRowSwapped | app/bitmap.c:107-112 | the inner loop stores the source row with its pixels swapped at `pbmp`, keeping what lies before |
| Bitmap.GetBmpData | app/bitmap.c:125-221 | nothing is stored exactly when a header cannot be read; otherwise the bit count, width and height of `DecodeBmp` are stored, together with its pixels when allocation succeeds and a NULL return when it fails |
| Bitmap.DecodeBmp | app/bitmap.c:153-164 | None exactly when the file is too short for both headers |
| Bitmap.DecodeWith | app/bitmap.c:168-192 | bit count, width and height taken from the info header, and `w*h*(bpp>>3)` pixel bytes |
| Bitmap.LoadRows | app/bitmap.c:185-217 | the pixels are those `DecodeWith` reads from `bfOffBits` on |
| Bitmap.ReadRows | app/bitmap.c:206-217 | the row loop stores the BMP rows in reverse order with their pixels swapped, filling the whole buffer |
| Bitmap.ReadRow | app/bitmap.c:207-216 | one pass reads the next BMP row and stores it at `pbuf`, in front of the rows already stored |
| Bitmap.LoadRowSwapped | app/bitmap.c:210-215 | the inner loop stores `line_buf` with its pixels swapped at `pbuf`, keeping what follows |
| Bitmap.RoundTrip | app/bitmap.c:102-217 | decoding what the encoder wrote gives back the frame, its width, its height and 32 bits per pixel |

## Left out

- File and console I/O: fopen, fseek, fwrite, fread and fclose, printf, `showBitMapFileHead`/`showBmpInforHead` and every `debug_printk`. GenBmpFile returns the bytes it would write, and GetBmpData takes the bytes of the file. A seek in memory cannot fail, so the fseek error paths are not modelled.
- GenBmpFile: requires 32 bits per pixel, a frame of `4*w*h` bytes and sizes that do not wrap in 32 bits. The C loop always moves four bytes per pixel, so other depths read and write outside the rows. The unchecked malloc is assumed to succeed.
- GetBmpData: requires, for a file holding both headers, 32 bits per pixel, sizes within 32 bits and all rows present after `bfOffBits`. The source ignores the result of the row freads and the bit count, so the model does not describe stale or out-of-bounds data. Both mallocs are one `allocOk` outcome.
- Kernel plumbing is not part of this model. This covers:
  - module init/exit and device registration;
  - the ioctl dispatcher;
  - mmap and poll;
  - the file-handle bookkeeping (`v4l2_fh_*`, `private_data`);
  - querybuf, qbuf, dqbuf and streamon, which only delegate to the videobuf core;
  - the videobuf core itself, including `videobuf_iolock`, whose result is a parameter, and `videobuf_reqbufs`, of which only the driver's buffer-type check is modelled.
- Timers, locks and wake-ups: jiffies and the expiry times are not modelled. The timer is a boolean `timerArmed`, set by open and the tick and cleared by release. The mutex, spinlock and `wake_up` are left out; the model is sequential. `waitqueue_active` and `v4l2_get_timestamp` are parameters of Tick.
- VirtualVideo.DeviceContext.BufferSetup: requires a non-NULL format, which the source dereferences without a check. BufferPrepare, GetFmt, Produce and Tick (when it fills) require the same.
- VirtualVideo.DeviceContext.Tick: requires the frame size to fit in the head buffer's memory when it fills. The source does not check this, and a format set after the buffers were prepared would make it write past them.
- VirtualVideo.DeviceContext.BufferQueue: requires the buffer not to be on the list already. `list_add_tail` on a node that is still linked (possible after a release of a QUEUED buffer or a re-open, neither of which empties the list) corrupts the list, and that corruption is not modelled.
- The format names and the capability strings are plain strings; `strlcpy` truncation never applies to them.
