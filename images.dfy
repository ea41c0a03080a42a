/**
 * Image buffers of the adapter: `resize_image`, which centre-crops a decoded image to
 * the requested aspect ratio and resamples it to the requested size, and
 * `load_image_from_b64`, which decodes, validates and then resizes.
 *
 * Buffers live on the `Memory.Heap` so that every `malloc` that can fail and every
 * `free` is visible. The codecs are not part of this model: base64 decoding, the image
 * decoder and the resampler are functions carried by `Codecs`. The resampler is given
 * per output byte, as a function of the source contents and both geometries.
 *
 * The crop width `(int)(height * dst_aspect)` is modelled as the exact real product
 * truncated, which is `height * expected_width / expected_height` in integers; likewise
 * for the crop height.
 */
module Images {
  import opened Common
  import opened Memory
  import Resolution

  /** The crop rectangle: top-left corner and size, in pixels. */
  datatype Window = Window(x: int, y: int, w: int, h: int)

  predicate ValidWindow(win: Window, width: int, height: int)
  {
    0 <= win.x && 0 <= win.w && win.x + win.w <= width &&
    0 <= win.y && 0 <= win.h && win.y + win.h <= height
  }

  /** `resize_image` does anything only when both expected sides are positive and differ from the image. */
  predicate NeedsResize(width: int, height: int, expectedWidth: int, expectedHeight: int)
  {
    expectedWidth > 0 && expectedHeight > 0 && (height != expectedHeight || width != expectedWidth)
  }

  /** The float test `src_aspect > dst_aspect` of `resize_image`. */
  predicate WiderThanTarget(width: int, height: int, ew: int, eh: int)
    requires height > 0 && eh > 0
  {
    width as real / height as real > ew as real / eh as real
  }

  /** The float test `src_aspect < dst_aspect` of `resize_image`. */
  predicate TallerThanTarget(width: int, height: int, ew: int, eh: int)
    requires height > 0 && eh > 0
  {
    width as real / height as real < ew as real / eh as real
  }

  /**
   * The centred crop to the target aspect ratio: a source wider than the target keeps
   * its height and the truncated width `height * ew / eh`; a taller one keeps its width
   * and the truncated height `width * eh / ew`; an equal ratio keeps everything.
   */
  function CropWindow(width: int, height: int, ew: int, eh: int): (win: Window)
    requires width > 0 && height > 0 && ew > 0 && eh > 0
    ensures ValidWindow(win, width, height)
    ensures width * eh > ew * height ==>
      win.h == height && win.y == 0 && win.w * eh <= height * ew < (win.w + 1) * eh &&
      win.x == (width - win.w) / 2
    ensures width * eh < ew * height ==>
      win.w == width && win.x == 0 && win.h * ew <= width * eh < (win.h + 1) * ew &&
      win.y == (height - win.h) / 2
    ensures width * eh == ew * height ==> win == Window(0, 0, width, height)
  {
    AspectCross(width, height, ew, eh);
    if WiderThanTarget(width, height, ew, eh) then
      CropSide(width, height, ew, eh);
      var cropW := (height * ew) / eh;
      Window((width - cropW) / 2, 0, cropW, height)
    else if TallerThanTarget(width, height, ew, eh) then
      CropSide(height, width, eh, ew);
      var cropH := (width * eh) / ew;
      Window(0, (height - cropH) / 2, width, cropH)
    else
      Window(0, 0, width, height)
  }

  /** The truncated cropped side is below the full side and brackets the exact product. */
  lemma CropSide(side: int, other: int, num: int, den: int)
    requires side > 0 && other > 0 && num > 0 && den > 0 && side * den > num * other
    ensures 0 <= (other * num) / den < side
    ensures (other * num) / den * den <= other * num < ((other * num) / den + 1) * den
  {
    var q := (other * num) / den;
    Resolution.DivFloor(other * num, den);
    assert q * den <= other * num < side * den;
    Resolution.MulLtCancel(q, side, den);
    Resolution.MulLe(0, other, num);
    Resolution.DivLower(other * num, den, 0);
  }

  /** Comparing the float aspect ratios is comparing the cross products. */
  lemma AspectCross(width: int, height: int, ew: int, eh: int)
    requires height > 0 && eh > 0
    ensures WiderThanTarget(width, height, ew, eh) <==> width * eh > ew * height
    ensures TallerThanTarget(width, height, ew, eh) <==> width * eh < ew * height
  {
    RealCross(width, height, ew, eh);
  }

  /** `a/b` against `c/d` in the reals is `a*d` against `c*b`. */
  lemma RealCross(a: int, b: int, c: int, d: int)
    requires b > 0 && d > 0
    ensures (a as real / b as real > c as real / d as real) <==> a * d > c * b
    ensures (a as real / b as real < c as real / d as real) <==> a * d < c * b
  {
    var x, y := a as real / b as real, c as real / d as real;
    assert x * b as real == a as real;
    assert y * d as real == c as real;
    assert (a * d) as real - (c * b) as real == (x - y) * (b as real * d as real);
    assert b as real * d as real > 0.0;
  }

  /** Offset of pixel `(x, y)` in a `width`-wide image with `c` bytes per pixel. */
  function RowStart(width: int, c: int, x: int, y: int): int
  {
    (y * width + x) * c
  }

  /** Row `row` of the window lies inside the source buffer. */
  lemma RowInBounds(width: int, height: int, c: int, win: Window, row: int)
    requires ValidWindow(win, width, height) && c >= 0 && 0 <= row < win.h
    ensures 0 <= RowStart(width, c, win.x, win.y + row)
    ensures RowStart(width, c, win.x, win.y + row) + win.w * c <= width * height * c
  {
    var y := win.y + row;
    Resolution.MulLe(0, y, width);
    Resolution.MulLe(y + 1, height, width);
    assert y * width + win.x + win.w <= height * width;
    Resolution.MulLe(y * width + win.x + win.w, height * width, c);
    Resolution.MulLe(0, y * width + win.x, c);
    assert (y * width + win.x + win.w) * c == (y * width + win.x) * c + win.w * c;
    assert height * width * c == width * height * c;
  }

  /** Byte `k` of the crop: row `k / rowLen` of the window, byte `k % rowLen` of that row. */
  function CropByte(src: seq<byte>, width: int, height: int, c: int, win: Window, k: int): byte
    requires ValidWindow(win, width, height) && c >= 0 && |src| == width * height * c
    requires 0 <= k < win.h * (win.w * c)
  {
    var rowLen := win.w * c;
    RowOfIndex(k, rowLen, win.h);
    RowInBounds(width, height, c, win, k / rowLen);
    src[RowStart(width, c, win.x, win.y + k / rowLen) + k % rowLen]
  }

  /** The window's rows, each `win.w * c` bytes, one after the other: what the crop loop builds. */
  function CropSpec(src: seq<byte>, width: int, height: int, c: int, win: Window): (r: seq<byte>)
    requires ValidWindow(win, width, height) && c >= 0 && |src| == width * height * c
    ensures |r| == win.h * (win.w * c)
  {
    Resolution.MulLe(0, win.w, c);
    Resolution.MulLe(0, win.h, win.w * c);
    seq(win.h * (win.w * c), k requires 0 <= k < win.h * (win.w * c) => CropByte(src, width, height, c, win, k))
  }

  /** Byte `j` of row `r` of the crop is byte `j` of source row `win.y + r`, from column `win.x`. */
  lemma CropRowContents(src: seq<byte>, width: int, height: int, c: int, win: Window, r: int, j: int)
    requires ValidWindow(win, width, height) && c >= 0 && |src| == width * height * c
    requires 0 <= r < win.h && 0 <= j < win.w * c
    ensures 0 <= r * (win.w * c) + j < win.h * (win.w * c)
    ensures 0 <= RowStart(width, c, win.x, win.y + r) + j < |src|
    ensures CropSpec(src, width, height, c, win)[r * (win.w * c) + j]
         == src[RowStart(width, c, win.x, win.y + r) + j]
  {
    RowIndex(r, win.h, win.w * c, j);
    RowInBounds(width, height, c, win, r);
    DivModRow(r, win.w * c, j);
  }

  /** The full window is the identity crop. */
  lemma CropFullWindow(src: seq<byte>, width: int, height: int, c: int)
    requires width >= 0 && height >= 0 && c >= 0 && |src| == width * height * c
    ensures CropSpec(src, width, height, c, Window(0, 0, width, height)) == src
  {
    var win := Window(0, 0, width, height);
    var crop := CropSpec(src, width, height, c, win);
    assert |crop| == |src| by {
      assert height * (width * c) == width * height * c;
    }
    forall k | 0 <= k < |src|
      ensures crop[k] == src[k]
    {
      var rowLen := width * c;
      RowOfIndex(k, rowLen, height);
      RowStartLinear(k / rowLen, width, c, k % rowLen);
    }
  }

  /** `(y * width + 0) * c + j` is the row's offset plus `j`, and `y * (width * c) + j` too. */
  lemma RowStartLinear(y: int, width: int, c: int, j: int)
    ensures RowStart(width, c, 0, y) + j == y * (width * c) + j
  {
    assert (y * width) * c == y * (width * c);
  }

  /** An index below `n` rows of `len` bytes has a row below `n` and a column below `len`. */
  lemma RowOfIndex(k: int, len: int, n: int)
    requires 0 <= k < n * len && len >= 0
    ensures len > 0 && 0 <= k / len < n && 0 <= k % len < len
    ensures k == (k / len) * len + k % len
  {
    assert len == 0 ==> n * len == 0;
    Resolution.DivFloor(k, len);
    Resolution.MulLtCancel(k / len, n, len);
    Resolution.DivLower(k, len, 0);
  }

  /** Byte `j` of row `r` lies within `rows` rows of `len` bytes. */
  lemma RowIndex(r: int, rows: int, len: int, j: int)
    requires 0 <= r < rows && 0 <= j < len
    ensures 0 <= r * len + j < rows * len
  {
    Resolution.MulLe(r + 1, rows, len);
    Resolution.MulLe(0, r, len);
  }

  /** Byte `j` of row `r` in rows of `len` bytes sits at `r * len + j`. */
  lemma DivModRow(r: int, len: int, j: int)
    requires 0 <= r && 0 <= j < len
    ensures (r * len + j) / len == r && (r * len + j) % len == j
  {
    var k := r * len + j;
    var q := k / len;
    Resolution.DivFloor(k, len);
    if q < r {
      Resolution.MulLe(q + 1, r, len);
    } else if q > r {
      Resolution.MulLe(r + 1, q, len);
    }
    assert q == r;
  }

  /** The bytes `stbir_resize` writes: byte `k` of the `ew` by `eh` output. */
  function Resampled(resample: (seq<byte>, int, int, int, int, int, nat) -> byte,
                     src: seq<byte>, width: int, height: int, ew: int, eh: int, c: int): (r: seq<byte>)
    requires ew >= 0 && eh >= 0 && c >= 0
    ensures |r| == eh * ew * c
    ensures forall k :: 0 <= k < |r| ==> r[k] == resample(src, width, height, ew, eh, c, k)
  {
    Resolution.MulLe(0, eh, ew);
    Resolution.MulLe(0, eh * ew, c);
    seq(eh * ew * c, k requires 0 <= k => resample(src, width, height, ew, eh, c, k))
  }

  /** What `resize_image` returns for an image it has to resize: the crop (if any) resampled. */
  function ResizedContents(resample: (seq<byte>, int, int, int, int, int, nat) -> byte,
                           src: seq<byte>, width: int, height: int, ew: int, eh: int, c: int): seq<byte>
    requires width > 0 && height > 0 && ew > 0 && eh > 0 && c > 0 && |src| == width * height * c
  {
    var win := CropWindow(width, height, ew, eh);
    if win.x != 0 || win.y != 0 then
      Resampled(resample, CropSpec(src, width, height, c, win), win.w, win.h, ew, eh, c)
    else
      Resampled(resample, src, width, height, ew, eh, c)
  }

  /** The row loop of the crop: one `memcpy` of `win.w * c` bytes per row. */
  method CopyRows(src: array<byte>, width: int, height: int, c: int, win: Window, dst: array<byte>)
    requires src != dst && ValidWindow(win, width, height) && c >= 0
    requires src.Length == width * height * c && dst.Length == win.h * (win.w * c)
    modifies dst
    ensures dst[..] == CropSpec(src[..], width, height, c, win)
  {
    var rowLen := win.w * c;
    ghost var crop := CropSpec(src[..], width, height, c, win);
    Resolution.MulLe(0, win.w, c);
    var row := 0;
    while row < win.h
      invariant 0 <= row <= win.h
      invariant row * rowLen <= dst.Length
      invariant forall k :: 0 <= k < row * rowLen ==> dst[k] == crop[k]
    {
      var from := RowStart(width, c, win.x, win.y + row);
      RowInBounds(width, height, c, win, row);
      var to := row * rowLen;
      Resolution.MulLe(row + 1, win.h, rowLen);
      assert (row + 1) * rowLen == to + rowLen;
      var j := 0;
      while j < rowLen
        invariant 0 <= j <= rowLen
        invariant forall k :: 0 <= k < to + j ==> dst[k] == crop[k]
      {
        CropRowContents(src[..], width, height, c, win, row, j);
        dst[to + j] := src[from + j];
        j := j + 1;
      }
      row := row + 1;
    }
  }

  /** The resampling call: fills `dst` byte by byte from the resampler. */
  method FillResampled(resample: (seq<byte>, int, int, int, int, int, nat) -> byte,
                       src: seq<byte>, width: int, height: int, ew: int, eh: int, c: int, dst: array<byte>)
    requires ew >= 0 && eh >= 0 && c >= 0 && dst.Length == eh * ew * c
    modifies dst
    ensures dst[..] == Resampled(resample, src, width, height, ew, eh, c)
  {
    var k := 0;
    while k < dst.Length
      invariant 0 <= k <= dst.Length
      invariant forall i :: 0 <= i < k ==> dst[i] == resample(src, width, height, ew, eh, c, i)
    {
      dst[k] := resample(src, width, height, ew, eh, c, k);
      k := k + 1;
    }
  }

  /**
   * The crop step of `resize_image`: allocate the window, copy its rows and free the
   * input; a failed allocation frees the input and gives null.
   */
  method CropImage(heap: Heap<byte>, buf: array<byte>, width: int, height: int, c: int, win: Window)
    returns (r: array?<byte>)
    requires heap.Valid() && buf in heap.live && ValidWindow(win, width, height)
    requires c > 0 && buf.Length == width * height * c
    modifies heap
    ensures heap.Valid() && heap.freed == old(heap.freed) + [buf]
    ensures heap.attempts == old(heap.attempts) + 1 && (r != null <==> heap.oracle(old(heap.attempts)))
    ensures r == null ==> heap.live == old(heap.live) - {buf}
    ensures r != null ==>
      fresh(r) && heap.live == old(heap.live) - {buf} + {r} &&
      r.Length == win.h * (win.w * c) && r[..] == CropSpec(old(buf[..]), width, height, c, win)
  {
    Resolution.MulLe(0, win.w, c);
    Resolution.MulLe(0, win.h, win.w * c);
    r := heap.Malloc(win.h * (win.w * c));
    if r == null {
      heap.Free(buf);
      return;
    }
    CopyRows(buf, width, height, c, win, r);
    heap.Free(buf);
  }

  /**
   * `resize_image`. Returns the same buffer when no resize is needed. Otherwise crops
   * when the centred window is offset, resamples to exactly the expected size and frees
   * every buffer it no longer returns: the input first, then the crop. A failed
   * allocation frees what is held and returns null.
   */
  method ResizeImage(heap: Heap<byte>, resample: (seq<byte>, int, int, int, int, int, nat) -> byte,
                     buf: array<byte>, width: int, height: int, ew: int, eh: int, c: int)
    returns (r: array?<byte>, newWidth: int, newHeight: int)
    requires heap.Valid() && buf in heap.live
    requires width > 0 && height > 0 && c > 0 && buf.Length == width * height * c
    modifies heap
    ensures heap.Valid() && heap.attempts >= old(heap.attempts)
    ensures !NeedsResize(width, height, ew, eh) ==>
      r == buf && newWidth == width && newHeight == height &&
      heap.live == old(heap.live) && heap.freed == old(heap.freed) && heap.attempts == old(heap.attempts)
    ensures NeedsResize(width, height, ew, eh) && heap.Granted(old(heap.attempts), heap.attempts) ==> r != null
    ensures NeedsResize(width, height, ew, eh) ==>
      |heap.freed| > |old(heap.freed)| && heap.freed[..|old(heap.freed)| + 1] == old(heap.freed) + [buf] &&
      (forall k :: |old(heap.freed)| < k < |heap.freed| ==> fresh(heap.freed[k])) &&
      (r == null ==> heap.live == old(heap.live) - {buf}) &&
      (r != null ==>
        fresh(r) && heap.live == old(heap.live) - {buf} + {r} &&
        newWidth == ew && newHeight == eh && r.Length == eh * ew * c &&
        r[..] == ResizedContents(resample, old(buf[..]), width, height, ew, eh, c))
  {
    if !NeedsResize(width, height, ew, eh) {
      return buf, width, height;
    }
    var win := CropWindow(width, height, ew, eh);
    var image: array<byte> := buf;
    var curW, curH := width, height;
    var contents := buf[..];
    if win.x != 0 || win.y != 0 {
      var cropped := CropImage(heap, buf, width, height, c, win);
      if cropped == null {
        return null, width, height;
      }
      curW, curH := win.w, win.h;
      image := cropped;
      contents := cropped[..];
    }
    Resolution.MulLe(0, eh, ew);
    Resolution.MulLe(0, eh * ew, c);
    var resized := heap.Malloc(eh * ew * c);
    if resized == null {
      heap.Free(image);
      return null, curW, curH;
    }
    FillResampled(resample, contents, curW, curH, ew, eh, c, resized);
    heap.Free(image);
    return resized, ew, eh;
  }

  /** What `stbi_load_from_memory` yields: size, channels in the file, pixels in the requested channels. */
  datatype Decoded = Decoded(width: int, height: int, fileChannels: int, pixels: seq<byte>)

  /** The codec functions the loader relies on. */
  datatype Codecs = Codecs(
    base64Decode: string -> seq<byte>,
    load: (seq<byte>, int) -> Option<Decoded>,
    resample: (seq<byte>, int, int, int, int, int, nat) -> byte)

  /** The decoder's own promise: a decoded image of positive size has one pixel per position. */
  ghost predicate DecoderContract(load: (seq<byte>, int) -> Option<Decoded>)
  {
    forall data: seq<byte>, d: int {:trigger load(data, d)} ::
      load(data, d).Some? && load(data, d).value.width > 0 && load(data, d).value.height > 0 && d > 0 ==>
        |load(data, d).value.pixels| == load(data, d).value.width * load(data, d).value.height * d
  }

  /** The validation `load_image_from_b64` applies to a decoded image before resizing it. */
  predicate Acceptable(d: Option<Decoded>, desiredChannels: int)
  {
    d.Some? && d.value.fileChannels >= desiredChannels && d.value.width > 0 && d.value.height > 0
  }

  /**
   * What `load_image_from_b64` yields when every allocation succeeds: nothing for a
   * decode failure, too few channels or a non-positive side; otherwise the size and the
   * pixels after `resize_image`.
   */
  ghost function Expected(codecs: Codecs, b64: string, ew: int, eh: int, desiredChannels: int): Option<(int, int, seq<byte>)>
    requires desiredChannels > 0 && DecoderContract(codecs.load)
  {
    var d := codecs.load(codecs.base64Decode(b64), desiredChannels);
    if !Acceptable(d, desiredChannels) then None
    else if NeedsResize(d.value.width, d.value.height, ew, eh) then
      Some((ew, eh, ResizedContents(codecs.resample, d.value.pixels, d.value.width, d.value.height, ew, eh, desiredChannels)))
    else Some((d.value.width, d.value.height, d.value.pixels))
  }

  /**
   * A loaded image has positive sides and one pixel per position, and a load with
   * positive expected sides always comes back at exactly that size.
   */
  lemma ExpectedShape(codecs: Codecs, b64: string, ew: int, eh: int, desiredChannels: int)
    requires desiredChannels > 0 && DecoderContract(codecs.load)
    ensures var e := Expected(codecs, b64, ew, eh, desiredChannels);
      e.Some? ==>
        e.value.0 > 0 && e.value.1 > 0 && |e.value.2| == e.value.0 * e.value.1 * desiredChannels &&
        (ew > 0 && eh > 0 ==> e.value.0 == ew && e.value.1 == eh)
  {
    var d := codecs.load(codecs.base64Decode(b64), desiredChannels);
    if Acceptable(d, desiredChannels) && NeedsResize(d.value.width, d.value.height, ew, eh) {
      assert eh * ew * desiredChannels == ew * eh * desiredChannels;
    }
  }

  /**
   * `load_image_from_b64`: decode, reject an image with too few channels or a
   * non-positive side (freeing the decoder's buffer), then `resize_image`. Every buffer
   * it frees was allocated during the call, and on success exactly the returned buffer
   * is added to the live set and holds the expected image.
   */
  method LoadImageFromB64(heap: Heap<byte>, codecs: Codecs, b64: string, ew: int, eh: int, desiredChannels: int)
    returns (r: array?<byte>, width: int, height: int)
    requires heap.Valid() && desiredChannels > 0 && DecoderContract(codecs.load)
    modifies heap
    ensures heap.Valid()
    ensures |heap.freed| >= |old(heap.freed)| && heap.freed[..|old(heap.freed)|] == old(heap.freed)
    ensures forall k :: |old(heap.freed)| <= k < |heap.freed| ==> fresh(heap.freed[k])
    ensures r == null ==> heap.live == old(heap.live)
    ensures r != null ==> fresh(r) && heap.live == old(heap.live) + {r}
    ensures Expected(codecs, b64, ew, eh, desiredChannels).None? ==> r == null
    ensures r != null ==> Expected(codecs, b64, ew, eh, desiredChannels) == Some((width, height, r[..]))
    ensures heap.attempts >= old(heap.attempts)
    ensures Expected(codecs, b64, ew, eh, desiredChannels).Some? && heap.Granted(old(heap.attempts), heap.attempts) ==> r != null
  {
    var decodedBuf := codecs.base64Decode(b64);
    var decoded := codecs.load(decodedBuf, desiredChannels);
    if decoded.None? {
      return null, 0, 0;
    }
    var img := decoded.value;
    var buffer := heap.Adopt(img.pixels);
    width, height := img.width, img.height;
    if img.fileChannels < desiredChannels || width <= 0 || height <= 0 {
      heap.Free(buffer);
      return null, width, height;
    }
    r, width, height := ResizeImage(heap, codecs.resample, buffer, width, height, ew, eh, desiredChannels);
  }

  // ---------------------------------------------------------------------------
  // Reference images of Qwen-Image and Flux2

  /** `res_lim_crash`: reference images above 512 x 512 pixels are scaled down. */
  const RefAreaLimit: int := 512 * 512

  /**
   * The downscale target of a reference image: unchanged up to 512 x 512 pixels, else
   * each side times the exact `sqrt(262144 / (nx * ny))`, truncated. The target never
   * exceeds the limit and never grows a side.
   */
  function RefImageTarget(nx: int, ny: int): (t: (int, int))
    requires nx > 0 && ny > 0
    ensures nx * ny <= RefAreaLimit ==> t == (nx, ny)
    ensures nx * ny > RefAreaLimit ==>
      0 <= t.0 <= nx && 0 <= t.1 <= ny && t.0 * t.1 <= RefAreaLimit &&
      t.0 * t.0 * ny <= RefAreaLimit * nx < (t.0 + 1) * (t.0 + 1) * ny &&
      t.1 * t.1 * nx <= RefAreaLimit * ny < (t.1 + 1) * (t.1 + 1) * nx
  {
    if nx * ny > RefAreaLimit then
      var tx := Resolution.ScaledShort(ny, nx, RefAreaLimit);
      var ty := Resolution.ScaledShort(nx, ny, RefAreaLimit);
      Resolution.ScaledProduct(tx, ty, ny, nx, RefAreaLimit);
      ScaledWithinSide(tx, nx, ny);
      ScaledWithinSide(ty, ny, nx);
      (tx, ty)
    else (nx, ny)
  }

  /** A side scaled by a factor below one does not grow. */
  lemma ScaledWithinSide(t: nat, side: int, other: int)
    requires side > 0 && other > 0 && side * other > RefAreaLimit
    requires t * t * other <= RefAreaLimit * side
    ensures t <= side
  {
    Resolution.MulLt(RefAreaLimit, side * other, side);
    assert side * other * side == side * side * other;
    Resolution.MulLtCancel(t * t, side * side, other);
    Resolution.SquareMonotone(t, side);
  }

  /** A reference image the engine can take: at most 512 x 512, unless its target size has a zero side. */
  predicate ScaledEnough(nx: int, ny: int)
    requires nx > 0 && ny > 0
  {
    nx * ny <= RefAreaLimit || RefImageTarget(nx, ny).0 == 0 || RefImageTarget(nx, ny).1 == 0
  }

  /**
   * The size and pixels of a reference image after the Qwen-Image and Flux2 downscale:
   * above 512 x 512 the image resized to `RefImageTarget`, unless a target side is 0,
   * in which case `resize_image` leaves it as it is.
   */
  function ScaledReferenceImage(resample: (seq<byte>, int, int, int, int, int, nat) -> byte,
                                src: seq<byte>, nx: int, ny: int): (r: (int, int, seq<byte>))
    requires nx > 0 && ny > 0 && |src| == nx * ny * 3
    ensures r.0 > 0 && r.1 > 0 && |r.2| == r.0 * r.1 * 3 && ScaledEnough(r.0, r.1)
    ensures r.0 <= nx && r.1 <= ny
    ensures nx * ny <= RefAreaLimit ==> r == (nx, ny, src)
    ensures nx * ny > RefAreaLimit && RefImageTarget(nx, ny).0 > 0 && RefImageTarget(nx, ny).1 > 0 ==>
      (r.0, r.1) == RefImageTarget(nx, ny) && r.2 == ResizedContents(resample, src, nx, ny, r.0, r.1, 3)
    ensures RefImageTarget(nx, ny).0 <= 0 || RefImageTarget(nx, ny).1 <= 0 ==> r == (nx, ny, src)
  {
    var t := RefImageTarget(nx, ny);
    if NeedsResize(nx, ny, t.0, t.1) then
      assert t.0 * t.1 <= RefAreaLimit;
      assert |Resampled(resample, src, nx, ny, t.0, t.1, 3)| == t.0 * t.1 * 3;
      (t.0, t.1, ResizedContents(resample, src, nx, ny, t.0, t.1, 3))
    else (nx, ny, src)
  }

  /**
   * The Qwen-Image and Flux2 downscale of a loaded reference image: above 512 x 512 it
   * is resized to `RefImageTarget`, which `resize_image` skips when a target side is 0.
   * It fails only when an allocation of the resize fails.
   */
  method ScaleReference(heap: Heap<byte>, resample: (seq<byte>, int, int, int, int, int, nat) -> byte,
                        buf: array<byte>, nx: int, ny: int)
    returns (r: array?<byte>, width: int, height: int)
    requires heap.Valid() && buf in heap.live
    requires nx > 0 && ny > 0 && buf.Length == nx * ny * 3
    modifies heap
    ensures heap.Valid()
    ensures |heap.freed| >= |old(heap.freed)| && heap.freed[..|old(heap.freed)|] == old(heap.freed)
    ensures forall k :: |old(heap.freed)| <= k < |heap.freed| ==> heap.freed[k] == buf || fresh(heap.freed[k])
    ensures ScaledEnough(nx, ny) ==> r == buf && width == nx && height == ny && heap.live == old(heap.live)
    ensures r == null ==> heap.live == old(heap.live) - {buf}
    ensures r != null ==>
      (r == buf || fresh(r)) && heap.live == old(heap.live) - {buf} + {r} &&
      width > 0 && height > 0 && r.Length == width * height * 3 &&
      (width, height, r[..]) == ScaledReferenceImage(resample, old(buf[..]), nx, ny)
    ensures heap.attempts >= old(heap.attempts)
    ensures heap.Granted(old(heap.attempts), heap.attempts) ==> r != null
  {
    if nx * ny <= RefAreaLimit {
      return buf, nx, ny;
    }
    var target := RefImageTarget(nx, ny);
    var tw, th := target.0, target.1;
    assert tw * th <= RefAreaLimit < nx * ny;
    if tw <= 0 || th <= 0 {
      assert !NeedsResize(nx, ny, tw, th);
      r, width, height := ResizeImage(heap, resample, buf, nx, ny, tw, th, 3);
      return;
    }
    assert tw != nx || th != ny;
    r, width, height := ResizeImage(heap, resample, buf, nx, ny, tw, th, 3);
    if r != null {
      assert width == tw && height == th;
      assert r.Length == th * tw * 3;
      assert width * height <= RefAreaLimit;
    }
  }

  /**
   * A reference image one pixel wide and 262145 tall is over the limit, but its target
   * width truncates to 0, so `resize_image` leaves it at its full size.
   */
  lemma DegenerateReferenceKeepsSize()
    ensures 1 * 262145 > RefAreaLimit
    ensures RefImageTarget(1, 262145).0 == 0
    ensures !NeedsResize(1, 262145, RefImageTarget(1, 262145).0, RefImageTarget(1, 262145).1)
  {
    var t := RefImageTarget(1, 262145);
    Resolution.MulLtCancel(t.0 * t.0, 1, 262145);
    Resolution.SquareLe(t.0, 1);
  }
}
