/**
 * The adapter's state between requests and the two entry points that change it,
 * `sdtype_generate` and `sdtype_upscale`.
 *
 * The state is the scratch slots that keep the last decoded images alive for the
 * engine (`input_image_buffer`, `input_mask_buffer`, `upscale_src_buffer` and up to
 * four extra images), the last output strings, the stored `remove_limits` flag and the
 * generation counter. Every slot frees its old buffer before it takes a new one, and
 * every buffer the adapter still owns is held by a slot.
 *
 * The engine (generation, upscaling, PNG/GIF/AVI encoding, its name tables) is not
 * part of this model: `Engine` carries it as functions, together with the load-time
 * configuration the request path reads.
 */
module Session {
  import opened Common
  import opened Memory
  import opened Images
  import opened Request
  import Names
  import Prompt
  import Resolution
  import opened Selection

  /** `max_extra_images`. */
  const MaxExtraImages: nat := 4

  /** An `sd_image_t` handed to the engine: size, channels and the buffer. */
  datatype ImageRef = ImageRef(width: int, height: int, channel: int, data: array<byte>)

  /** Which list the extra images of a request feed, in the adapter's order of priority. */
  datatype ExtraRoute = WanFrames | ScaledReference | Reference | PhotoMakerId | Unused

  /**
   * A Wan model takes keyframes, Qwen-Image and Flux2 take reference images scaled to at
   * most 512 x 512, Kontext takes them unscaled, PhotoMaker takes identity images, and
   * any other model ignores extra images.
   */
  function RouteExtras(f: Family, photomakerEnabled: bool): (r: ExtraRoute)
    ensures IsWan(f.version) ==> r == WanFrames
    ensures r == ScaledReference <==> !IsWan(f.version) && (IsQwenImage(f.version) || IsFlux2(f.version))
    ensures r == Reference ==> IsKontext(f)
    ensures r == PhotoMakerId ==> photomakerEnabled && !IsKontext(f)
    ensures r == Unused <==>
      !IsWan(f.version) && !IsQwenImage(f.version) && !IsFlux2(f.version) && !IsKontext(f) && !photomakerEnabled
  {
    if IsWan(f.version) then WanFrames
    else if IsQwenImage(f.version) || IsFlux2(f.version) then ScaledReference
    else if IsKontext(f) || photomakerEnabled then (if IsKontext(f) then Reference else PhotoMakerId)
    else Unused
  }

  /**
   * What an extra image handed to the engine satisfies: three channels, positive sides
   * and one byte per channel and pixel; a Wan keyframe has the requested size; a scaled
   * reference is at most 512 x 512 unless its target size degenerated to a zero side.
   */
  predicate ShapeOk(width: int, height: int, channel: int, size: int, route: ExtraRoute, w: int, h: int)
  {
    channel == 3 && width > 0 && height > 0 && size == width * height * 3 &&
    (route == WanFrames && w > 0 && h > 0 ==> width == w && height == h) &&
    (route == ScaledReference ==> ScaledEnough(width, height))
  }

  predicate RefOk(r: ImageRef, route: ExtraRoute, w: int, h: int)
  {
    ShapeOk(r.width, r.height, r.channel, r.data.Length, route, w, h)
  }

  /** The buffer of a slot, as a set: empty for NULL. */
  function Slot(b: array?<byte>): set<array<byte>>
  {
    if b == null then {} else {b}
  }

  /** The buffers in a list of buffers. */
  ghost function Elems(s: seq<array<byte>>): set<array<byte>>
  {
    set i | 0 <= i < |s| :: s[i]
  }

  /** Appending a buffer adds exactly that buffer. */
  lemma ElemsAppend(s: seq<array<byte>>, b: array<byte>)
    ensures Elems(s + [b]) == Elems(s) + {b}
  {
    var t := s + [b];
    forall x | x in Elems(t) ensures x in Elems(s) + {b} {
      var k :| 0 <= k < |t| && t[k] == x;
      if k < |s| {
        assert s[k] == x;
      }
    }
    forall x | x in Elems(s) ensures x in Elems(t) {
      var k :| 0 <= k < |s| && s[k] == x;
      assert t[k] == x;
    }
    assert t[|s|] == b;
  }

  /** The buffers of a list of image references, in order. */
  function Buffers(refs: seq<ImageRef>): (bs: seq<array<byte>>)
    ensures |bs| == |refs| && forall k :: 0 <= k < |refs| ==> bs[k] == refs[k].data
  {
    seq(|refs|, k requires 0 <= k < |refs| => refs[k].data)
  }

  /** No two image references share a buffer. */
  predicate Distinct(refs: seq<ImageRef>)
  {
    forall a, b :: 0 <= a < b < |refs| ==> refs[a].data != refs[b].data
  }

  /** Appending a reference adds exactly its buffer. */
  lemma BuffersAppend(refs: seq<ImageRef>, r: ImageRef)
    ensures Elems(Buffers(refs + [r])) == Elems(Buffers(refs)) + {r.data}
  {
    assert Buffers(refs + [r]) == Buffers(refs) + [r.data];
    ElemsAppend(Buffers(refs), r.data);
  }

  /** The bytes of a cleaned prompt as the characters of `sd_params->prompt`. */
  function AsText(b: seq<byte>): (s: string)
    ensures |s| == |b| && forall i :: 0 <= i < |b| ==> s[i] as int == b[i] as int
  {
    seq(|b|, i requires 0 <= i < |b| => b[i] as int as char)
  }

  /** The first `n` bytes of `s` replaced by `255 - b`, the rest kept. */
  function Inverted(s: seq<byte>, n: int): (r: seq<byte>)
    ensures |r| == |s|
    ensures forall i :: 0 <= i < |s| ==> r[i] == if i < n then 255 - s[i] else s[i]
  {
    seq(|s|, i requires 0 <= i < |s| => if i < n then 255 - s[i] else s[i])
  }

  /** Flipping a mask twice gives the mask back. */
  lemma InvertedTwice(s: seq<byte>, n: int)
    ensures Inverted(Inverted(s, n), n) == s
  {
    var t := Inverted(Inverted(s, n), n);
    assert forall i :: 0 <= i < |s| ==> t[i] == s[i];
  }

  /** The flip loop of the mask: each of the first `n` bytes becomes `255 - b`. */
  method FlipMask(mask: array<byte>, n: int)
    requires n <= mask.Length
    modifies mask
    ensures mask[..] == Inverted(old(mask[..]), n)
  {
    var i := 0;
    while i < n
      invariant 0 <= i <= Max(n, 0) && i <= mask.Length
      invariant forall k :: 0 <= k < mask.Length ==> mask[k] == if k < i then 255 - old(mask[k]) else old(mask[k])
    {
      mask[i] := 255 - mask[i];
      i := i + 1;
    }
  }

  /** The mask flip as written: it dereferences the mask buffer without checking it. */
  method FlipMaskAsWritten(mask: array?<byte>, n: int)
    requires mask != null && n <= mask.Length
    modifies mask
    ensures mask[..] == Inverted(old(mask[..]), n)
  {
    FlipMask(mask, n);
  }

  /** A decoder that rejects every input. */
  function RejectAll(data: seq<byte>, d: int): Option<Decoded>
  {
    None
  }

  /**
   * With a mask the decoder rejects, `Expected` has no image, so `LoadImageFromB64`
   * returns NULL (its `ensures Expected(...).None? ==> r == null`), and the call
   * `FlipMaskAsWritten(input_mask_buffer, ...)` that the as-written code then makes
   * when `flip_mask` is set fails its `mask != null` precondition. The same NULL comes
   * back for a mask that decodes but whose resize allocation fails; there the sizes
   * the flip reads are set and positive, so the write through NULL is certain.
   */
  lemma MaskFlipReachesNull(codecs: Codecs, mask: string, ew: int, eh: int)
    requires codecs.load == RejectAll
    ensures DecoderContract(codecs.load)
    ensures Expected(codecs, mask, ew, eh, 1).None?
  {
  }

  /** An `sd_image_t` as the engine reads it: size, channels and the pixel bytes. */
  datatype Frame = Frame(width: int, height: int, channel: int, pixels: seq<byte>)

  /** The result of one engine call: the first image (NULL data is `None`) and `generated_num_results`. */
  datatype Results = Results(first: Option<Frame>, count: int)

  /**
   * The images one engine call receives: reference and PhotoMaker identity images, the
   * opening and closing keyframes of a video, and the init image and mask of img2img.
   */
  datatype Conditioning = Conditioning(
    refImages: seq<Frame>,
    idImages: seq<Frame>,
    keyframes: (Option<Frame>, Option<Frame>),
    initImage: Option<Frame>,
    mask: Option<Frame>)

  predicate FrameOk(f: Frame, route: ExtraRoute, w: int, h: int)
  {
    ShapeOk(f.width, f.height, f.channel, |f.pixels|, route, w, h)
  }

  function FrameOf(r: ImageRef): Frame
    reads r.data
  {
    Frame(r.width, r.height, r.channel, r.data[..])
  }

  /** What the engine reads through a list of image references, in order. */
  function FramesOf(refs: seq<ImageRef>): (fs: seq<Frame>)
    reads set i | 0 <= i < |refs| :: refs[i].data
    ensures |fs| == |refs|
    ensures forall i :: 0 <= i < |refs| ==> fs[i] == FrameOf(refs[i])
  {
    if |refs| == 0 then []
    else FramesOf(refs[..|refs| - 1]) + [FrameOf(refs[|refs| - 1])]
  }

  /** A reference that passes the size checks gives a frame that passes them too. */
  lemma FramesKeepShape(refs: seq<ImageRef>, route: ExtraRoute, w: int, h: int)
    requires forall i :: 0 <= i < |refs| ==> RefOk(refs[i], route, w, h)
    ensures forall i :: 0 <= i < |refs| ==> FrameOk(FramesOf(refs)[i], route, w, h)
  {
  }

  /** The keyframes of a call: the first two Wan images, and none for any other route. */
  function Keyframes(route: ExtraRoute, frames: seq<Frame>): (k: (Option<Frame>, Option<Frame>))
    ensures route != WanFrames ==> k == (None, None)
    ensures route == WanFrames ==> k == WanKeyframes(frames)
  {
    if route == WanFrames then WanKeyframes(frames) else (None, None)
  }

  /** A loaded mask, flipped (every byte `255 - b`) when the request asks for it. */
  function MaskPixels(px: seq<byte>, flip: bool): (r: seq<byte>)
    ensures |r| == |px|
    ensures flip ==> forall i :: 0 <= i < |px| ==> r[i] == 255 - px[i]
    ensures !flip ==> r == px
  {
    if flip then Inverted(px, |px|) else px
  }

  /**
   * The mask the engine should receive for a given mask image: the decoded one-channel
   * image, flipped when asked, declared at the request size; nothing when it does not load.
   */
  ghost function ExpectedMask(codecs: Codecs, b64: string, w: int, h: int, flip: bool): Option<Frame>
    requires DecoderContract(codecs.load)
  {
    var x := Expected(codecs, b64, w, h, 1);
    if x.None? then None else Some(Frame(w, h, 1, MaskPixels(x.value.2, flip)))
  }

  /** `default_mask_image_vec`: every byte 255 (sized for three channels, declared as one). */
  function DefaultMask(w: int, h: int): (m: Frame)
    requires w >= 0 && h >= 0
    ensures m.width == w && m.height == h && m.channel == 1 && |m.pixels| == w * h * 3
    ensures forall i :: 0 <= i < |m.pixels| ==> m.pixels[i] == 255
  {
    Resolution.MulLe(0, w, h);
    Frame(w, h, 1, seq(w * h * 3, _ => 255))
  }

  /** The output strings after a PNG encode: the new image alone, or the previous strings when it failed. */
  function PngSlot(png: Option<string>, recent: (string, string)): (r: (string, string))
    ensures png.Some? ==> r == (png.value, "")
    ensures png.None? ==> r == recent
  {
    if png.Some? then (png.value, "") else recent
  }

  /** The still image returned for a result: the frame, doubled by the upscaler when asked and available. */
  function Shown(e: Engine, req: Inputs, frame: Frame): (f: Frame)
    ensures !(req.upscale && e.hasUpscaler) ==> f == frame
  {
    if req.upscale && e.hasUpscaler then e.upscale(frame, 2) else frame
  }

  /**
   * The output loop of `sdtype_generate` for its single batch entry: the new recent
   * strings and whether the result is a video. A NULL result changes nothing; a video
   * takes the GIF/AVI payload; a still image takes its PNG, or keeps the previous
   * strings when encoding fails.
   */
  function Emitted(e: Engine, req: Inputs, results: Results, count: int, recent: (string, string)): (r: (string, string, bool))
    ensures r.2 <==> results.first.Some? && Animated(req.vidReqFrames, count, e.isVidModel)
    ensures r.2 ==> e.isVidModel && req.vidReqFrames > 1 && count > 1
    ensures !r.2 ==> (r.0, r.1) == recent || r.1 == ""
    ensures r.2 ==> (r.0, r.1) == VideoPayload(req.videoOutputType, e.encodeGif(results), e.encodeAvi(results))
  {
    if results.first.None? then (recent.0, recent.1, false)
    else if Animated(req.vidReqFrames, count, e.isVidModel) then
      var v := VideoPayload(req.videoOutputType, e.encodeGif(results), e.encodeAvi(results));
      (v.0, v.1, true)
    else
      var s := PngSlot(e.encodePng(Shown(e, req, results.first.value)), recent);
      (s.0, s.1, false)
  }

  /**
   * A call that yields no new image (a NULL result, or a still image whose PNG encode
   * fails) still reports success, with the previous request's strings.
   */
  lemma StaleOutputWhenNothingNew(e: Engine, req: Inputs, results: Results, count: int, recent: (string, string))
    requires results.first.None? ||
      (!Animated(req.vidReqFrames, count, e.isVidModel) && e.encodePng(Shown(e, req, results.first.value)).None?)
    ensures var r := Emitted(e, req, results, count, recent); (r.0, r.1) == recent && !r.2
  {
  }

  /** A still image that encodes replaces both strings: its PNG and an empty extra string. */
  lemma StillImageReplacesOutput(e: Engine, req: Inputs, results: Results, count: int, recent: (string, string))
    requires results.first.Some? && !Animated(req.vidReqFrames, count, e.isVidModel)
    requires e.encodePng(Shown(e, req, results.first.value)).Some?
    ensures Emitted(e, req, results, count, recent) ==
      (e.encodePng(Shown(e, req, results.first.value)).value, "", false)
  {
  }

  /** A video of an unknown output type clears both strings. */
  lemma UnknownVideoTypeClears(e: Engine, req: Inputs, results: Results, count: int, recent: (string, string))
    requires results.first.Some? && Animated(req.vidReqFrames, count, e.isVidModel)
    requires req.videoOutputType !in {0, 1, 2}
    ensures Emitted(e, req, results, count, recent) == ("", "", true)
  {
    UnknownOutputTypeIsEmpty(req.videoOutputType, e.encodeGif(results), e.encodeAvi(results));
  }

  /** The engine and the load-time configuration the request path reads. */
  datatype Engine = Engine(
    ready: bool,
    hasUpscaler: bool,
    family: Family,
    isVidModel: bool,
    photomakerEnabled: bool,
    signedChar: bool,
    cfgSideLimit: int,
    cfgSquareLimit: int,
    tileThreshold: int,
    samplerLookup: string -> Names.SampleMethod,
    defaultSampler: Names.SampleMethod,
    initDistilledGuidance: real,
    schedulerLookup: string -> nat,
    schedulerCount: nat,
    codecs: Codecs,
    generate: (Mode, GenParams, bool, int, Conditioning) -> Option<Results>,
    upscale: (Frame, int) -> Frame,
    encodePng: Frame -> Option<string>,
    encodeGif: Results -> Encoded,
    encodeAvi: Results -> Encoded)

  /** The fields of `sd_generation_inputs` the adapter reads. */
  datatype Inputs = Inputs(
    prompt: seq<byte>,
    negativePrompt: seq<byte>,
    initImage: string,
    mask: string,
    extraImages: seq<string>,
    cfgScale: real,
    distilledGuidance: real,
    sampleSteps: int,
    shiftedTimestep: int,
    seed: int,
    width: int,
    height: int,
    strength: real,
    clipSkip: int,
    sampleMethod: string,
    scheduler: Option<string>,
    removeLimits: bool,
    flipMask: bool,
    upscale: bool,
    vidReqFrames: int,
    videoOutputType: int)

  /** `sd_generation_outputs`. */
  datatype Output = Output(data: string, dataExtra: string, animated: bool, status: int)

  const Failed: Output := Output("", "", false, 0)

  /** The sampler of a request: the named one, or the engine's default for an unknown name. */
  function RequestSampler(e: Engine, name: string): (m: Names.SampleMethod)
    ensures m != Names.MethodCount || e.defaultSampler == Names.MethodCount
    ensures Names.SamplerFromName(e.samplerLookup, name) != Names.MethodCount ==>
      m == Names.SamplerFromName(e.samplerLookup, name)
  {
    var m := Names.SamplerFromName(e.samplerLookup, name);
    if m == Names.MethodCount then e.defaultSampler else m
  }

  /** `sd_params` after the copy from the request, before any correction. */
  function RequestParams(e: Engine, req: Inputs): GenParams
  {
    GenParams(
      AsText(Prompt.Clean(req.prompt, e.signedChar)),
      AsText(Prompt.Clean(req.negativePrompt, e.signedChar)),
      req.cfgScale, req.distilledGuidance, req.sampleSteps, req.shiftedTimestep, req.seed,
      req.width, req.height, req.strength, req.clipSkip,
      RequestSampler(e, req.sampleMethod),
      Names.SchedulerFromName(e.schedulerLookup, e.schedulerCount, req.scheduler))
  }

  /**
   * What the request shaping guarantees: the copied request after the family
   * corrections (read with the stored flag), with the resolution the solver picks for
   * the configured limits, which the img2img dimension check never rejects. By
   * `Fixed`'s contract both sides are then multiples of 64 within the hard side limit
   * and the soft area limit.
   */
  predicate ShapedParams(e: Engine, req: Inputs, storedRemoveLimits: bool, p: GenParams)
  {
    p == FamilyCorrections(RequestParams(e, req), e.family, storedRemoveLimits).(width := p.width, height := p.height) &&
    (p.width, p.height) ==
      Resolution.Fixed(req.width, req.height, HardSideLimit(e.cfgSideLimit), SoftAreaLimit(e.cfgSquareLimit, e.family.version)) &&
    !BadImg2ImgDimensions(p.width, p.height)
  }

  /**
   * The request shaping of `sdtype_generate` up to the engine call: copy, family
   * corrections with the stored flag, then the resolution solver with the configured
   * limits.
   */
  method ShapeRequest(e: Engine, req: Inputs, storedRemoveLimits: bool) returns (p: GenParams)
    ensures ShapedParams(e, req, storedRemoveLimits, p)
    ensures Resolution.IsSide(p.width) && Resolution.IsSide(p.height)
    ensures p.width <= Resolution.RoundDown64(HardSideLimit(e.cfgSideLimit))
    ensures p.height <= Resolution.RoundDown64(HardSideLimit(e.cfgSideLimit))
    ensures p.width * p.height <= SoftAreaLimit(e.cfgSquareLimit, e.family.version) * SoftAreaLimit(e.cfgSquareLimit, e.family.version)
  {
    var corrected := FamilyCorrections(RequestParams(e, req), e.family, storedRemoveLimits);
    var hard := HardSideLimit(e.cfgSideLimit);
    var soft := SoftAreaLimit(e.cfgSquareLimit, e.family.version);
    var w, h := Resolution.FixResolution(corrected.width, corrected.height, hard, soft);
    p := corrected.(width := w, height := h);
  }

  /** The prompt the engine receives: the PhotoMaker fix applies only when extra images were given. */
  function SentPrompt(e: Engine, prompt: string, sources: seq<string>): (r: string)
    ensures |sources| == 0 ==> r == prompt
    ensures |sources| > 0 ==> r == Prompt.FixPhotoMakerPrompt(prompt, e.photomakerEnabled)
  {
    if |sources| > 0 then Prompt.FixPhotoMakerPrompt(prompt, e.photomakerEnabled) else prompt
  }

  /**
   * The distilled guidance the engine receives: the request's value when it is not
   * negative, otherwise the value the engine's parameter initialisation left in place.
   */
  function SentGuidance(e: Engine, g: real): (r: real)
    ensures g >= 0.0 ==> r == g
    ensures g < 0.0 ==> r == e.initDistilledGuidance
  {
    if g >= 0.0 then g else e.initDistilledGuidance
  }

  /**
   * The parameters the engine receives: the shaped request with the prompt the PhotoMaker
   * fix gives, and the distilled guidance copied only when it is not negative.
   */
  predicate SentParams(e: Engine, req: Inputs, storedRemoveLimits: bool, p: GenParams)
  {
    var base := AsText(Prompt.Clean(req.prompt, e.signedChar));
    ShapedParams(e, req, storedRemoveLimits, p.(prompt := base, distilledGuidance := req.distilledGuidance)) &&
    p.prompt == SentPrompt(e, base, WanKeyframeSources(req.extraImages, req.initImage, IsWan(e.family.version))) &&
    p.distilledGuidance == SentGuidance(e, req.distilledGuidance)
  }

  /**
   * Which images reach the engine in each mode: a video gets only keyframes (and only
   * from Wan images), the image modes get reference or identity images by route, and
   * every image passed the size checks.
   */
  predicate CondFits(cond: Conditioning, mode: Mode, route: ExtraRoute, w: int, h: int)
  {
    (mode == Video ==> cond.refImages == [] && cond.idImages == [] && cond.initImage.None? && cond.mask.None?) &&
    (mode != Img2Img ==> cond.initImage.None? && cond.mask.None?) &&
    (mode != Video ==> cond.keyframes == (None, None)) &&
    (cond.refImages != [] ==> route == ScaledReference || route == Reference) &&
    (cond.idImages != [] ==> route == PhotoMakerId) &&
    (cond.keyframes.0.Some? ==> route == WanFrames) &&
    |cond.refImages| + |cond.idImages| <= MaxExtraImages &&
    (forall i :: 0 <= i < |cond.refImages| ==> FrameOk(cond.refImages[i], route, w, h)) &&
    (forall i :: 0 <= i < |cond.idImages| ==> FrameOk(cond.idImages[i], route, w, h)) &&
    (cond.keyframes.0.Some? ==> FrameOk(cond.keyframes.0.value, route, w, h)) &&
    (cond.keyframes.1.Some? ==> FrameOk(cond.keyframes.1.value, route, w, h))
  }

  /**
   * The frame the engine should receive for one extra image when every allocation
   * succeeds: a Wan keyframe decoded at the request size; a Kontext or PhotoMaker image
   * decoded as it is; a Qwen-Image or Flux2 reference decoded as it is and then scaled
   * down. Nothing when the image does not decode, and nothing for a model that takes no
   * extra images.
   */
  ghost function ExpectedExtra(codecs: Codecs, b64: string, route: ExtraRoute, w: int, h: int): (r: Option<Frame>)
    requires DecoderContract(codecs.load)
    ensures route == Unused ==> r.None?
    ensures r.Some? ==> FrameOk(r.value, route, w, h)
    ensures route != Unused ==>
      (r.None? <==> Expected(codecs, b64, if route == WanFrames then w else 0, if route == WanFrames then h else 0, 3).None?)
  {
    var ew, eh := if route == WanFrames then w else 0, if route == WanFrames then h else 0;
    var x := Expected(codecs, b64, ew, eh, 3);
    ExpectedShape(codecs, b64, ew, eh, 3);
    if route == Unused || x.None? then None
    else if route == ScaledReference then
      var s := ScaledReferenceImage(codecs.resample, x.value.2, x.value.0, x.value.1);
      Some(Frame(s.0, s.1, 3, s.2))
    else Some(Frame(x.value.0, x.value.1, 3, x.value.2))
  }

  /**
   * `picked` lists, in increasing order, indices among the first four extra images whose
   * expected frame exists.
   */
  ghost predicate Picked(codecs: Codecs, data: seq<string>, route: ExtraRoute, w: int, h: int, picked: seq<int>)
    requires DecoderContract(codecs.load)
  {
    (forall i, j :: 0 <= i < j < |picked| ==> picked[i] < picked[j]) &&
    forall i :: 0 <= i < |picked| ==>
      0 <= picked[i] < Min(|data|, MaxExtraImages) && ExpectedExtra(codecs, data[picked[i]], route, w, h).Some?
  }

  /** The expected frames of the picked extra images, in order. */
  ghost function PickedFrames(codecs: Codecs, data: seq<string>, route: ExtraRoute, w: int, h: int, picked: seq<int>): (fs: seq<Frame>)
    requires DecoderContract(codecs.load) && Picked(codecs, data, route, w, h, picked)
    ensures |fs| == |picked|
    ensures forall i :: 0 <= i < |picked| ==> Some(fs[i]) == ExpectedExtra(codecs, data[picked[i]], route, w, h)
  {
    seq(|picked|, i requires 0 <= i < |picked| => ExpectedExtra(codecs, data[picked[i]], route, w, h).value)
  }

  /** The first four extra images that have an expected frame are exactly the picked ones. */
  ghost predicate NoneSkipped(codecs: Codecs, data: seq<string>, route: ExtraRoute, w: int, h: int, picked: seq<int>)
    requires DecoderContract(codecs.load)
  {
    forall j :: 0 <= j < Min(|data|, MaxExtraImages) && ExpectedExtra(codecs, data[j], route, w, h).Some? ==> j in picked
  }

  /** `want` holds the expected frame of every extra image, in order. */
  ghost predicate Wanted(codecs: Codecs, data: seq<string>, route: ExtraRoute, w: int, h: int, want: seq<Option<Frame>>)
    requires DecoderContract(codecs.load)
  {
    |want| == |data| &&
    forall j {:trigger ExpectedExtra(codecs, data[j], route, w, h)} :: 0 <= j < |data| ==>
      want[j] == ExpectedExtra(codecs, data[j], route, w, h)
  }

  /** The expected frame of every extra image, in order. */
  ghost function ExpectedExtras(codecs: Codecs, data: seq<string>, route: ExtraRoute, w: int, h: int): (want: seq<Option<Frame>>)
    requires DecoderContract(codecs.load)
    ensures Wanted(codecs, data, route, w, h, want)
  {
    seq(|data|, j requires 0 <= j < |data| => ExpectedExtra(codecs, data[j], route, w, h))
  }

  /** After the last round the frames are the expected frames of the picked sources, and none was skipped unless an allocation failed. */
  lemma FilledDone(codecs: Codecs, data: seq<string>, route: ExtraRoute, w: int, h: int,
                   want: seq<Option<Frame>>, frames: seq<Frame>, picked: seq<int>, granted: bool)
    requires DecoderContract(codecs.load) && Wanted(codecs, data, route, w, h, want)
    requires Filled(want, Min(|data|, MaxExtraImages), frames, picked, granted)
    ensures Picked(codecs, data, route, w, h, picked) && frames == PickedFrames(codecs, data, route, w, h, picked)
    ensures granted ==> NoneSkipped(codecs, data, route, w, h, picked)
  {
    assert forall k :: 0 <= k < |picked| ==> ExpectedExtra(codecs, data[picked[k]], route, w, h) == want[picked[k]];
    assert frames == PickedFrames(codecs, data, route, w, h, picked);
    if granted {
      forall j | 0 <= j < Min(|data|, MaxExtraImages) && ExpectedExtra(codecs, data[j], route, w, h).Some?
        ensures j in picked
      {
        assert want[j] == ExpectedExtra(codecs, data[j], route, w, h);
      }
    }
  }

  /**
   * Where the extra images of a call go: outside video mode, reference images for
   * Qwen-Image, Flux2 and Kontext and identity images for PhotoMaker; in video mode the
   * opening and closing keyframes of a Wan model.
   */
  predicate RoutedExtras(c: Conditioning, mode: Mode, route: ExtraRoute, frames: seq<Frame>)
  {
    c.refImages == (if mode != Video && (route == ScaledReference || route == Reference) then frames else []) &&
    c.idImages == (if mode != Video && route == PhotoMakerId then frames else []) &&
    c.keyframes == (if mode == Video then Keyframes(route, frames) else (None, None))
  }

  /**
   * The extra images that reach the engine: the expected frames of the picked sources,
   * in order, routed by model and mode; when no allocation failed (`granted`), every
   * source among the first four that decodes is picked.
   */
  ghost predicate ExtrasSent(codecs: Codecs, sources: seq<string>, route: ExtraRoute, w: int, h: int, mode: Mode,
                             picked: seq<int>, cond: Conditioning, granted: bool)
    requires DecoderContract(codecs.load)
  {
    Picked(codecs, sources, route, w, h, picked) &&
    RoutedExtras(cond, mode, route, PickedFrames(codecs, sources, route, w, h, picked)) &&
    (granted ==> NoneSkipped(codecs, sources, route, w, h, picked))
  }

  /** The init image the engine should receive: the decoded RGB image at the request size. */
  ghost function ExpectedInit(codecs: Codecs, b64: string, w: int, h: int): Option<Frame>
    requires DecoderContract(codecs.load)
  {
    var x := Expected(codecs, b64, w, h, 3);
    if x.None? then None else Some(Frame(w, h, 3, x.value.2))
  }

  /**
   * The img2img inputs the engine receives: the expected init image; the default mask
   * without a mask image; with one, the expected mask, or none when the load failed.
   */
  ghost predicate Img2ImgInputs(codecs: Codecs, req: Inputs, w: int, h: int, init: Option<Frame>, mask: Option<Frame>)
    requires DecoderContract(codecs.load) && w >= 0 && h >= 0
  {
    init == ExpectedInit(codecs, req.initImage, w, h) &&
    (req.mask == "" ==> mask == Some(DefaultMask(w, h))) &&
    (req.mask != "" ==>
      (mask.None? || mask == ExpectedMask(codecs, req.mask, w, h, req.flipMask)) &&
      (ExpectedMask(codecs, req.mask, w, h, req.flipMask).None? ==> mask.None?))
  }

  /**
   * The mask load of img2img: one channel at the request size, flipped when asked. The
   * flip runs only on a buffer that loaded.
   */
  method LoadMaskBuffer(heap: Heap<byte>, codecs: Codecs, b64: string, w: int, h: int, flip: bool)
    returns (r: array?<byte>)
    requires heap.Valid() && DecoderContract(codecs.load)
    modifies heap
    ensures heap.Valid()
    ensures r == null ==> heap.live == old(heap.live)
    ensures r != null ==> fresh(r) && heap.live == old(heap.live) + {r}
    ensures ExpectedMask(codecs, b64, w, h, flip).None? ==> r == null
    ensures r != null ==> ExpectedMask(codecs, b64, w, h, flip) == Some(Frame(w, h, 1, r[..]))
    ensures heap.attempts >= old(heap.attempts)
    ensures ExpectedMask(codecs, b64, w, h, flip).Some? && heap.Granted(old(heap.attempts), heap.attempts) ==> r != null
  {
    var nx, ny;
    r, nx, ny := LoadImageFromB64(heap, codecs, b64, w, h, 1);
    ExpectedShape(codecs, b64, w, h, 1);
    if r != null && flip {
      assert r.Length == nx * ny;
      FlipMask(r, nx * ny);
    }
  }

  class Session {
    const heap: Heap<byte>
    var inputImage: array?<byte>
    var inputMask: array?<byte>
    var upscaleSrc: array?<byte>
    var extras: seq<array<byte>>
    var recentData: string
    var recentData2: string
    var removeLimits: bool
    var totalImgGens: int

    /** The buffers of the extra-image slots. */
    ghost function ExtraSet(): set<array<byte>>
      reads this
    {
      Elems(extras)
    }

    /** Every buffer a slot holds. */
    ghost function Owned(): set<array<byte>>
      reads this
    {
      Slot(inputImage) + Slot(inputMask) + Slot(upscaleSrc) + ExtraSet()
    }

    /** No buffer sits in two slots. */
    ghost predicate Disjoint()
      reads this
    {
      (inputImage != null ==> inputImage != inputMask && inputImage != upscaleSrc && inputImage !in ExtraSet()) &&
      (inputMask != null ==> inputMask != upscaleSrc && inputMask !in ExtraSet()) &&
      (upscaleSrc != null ==> upscaleSrc !in ExtraSet()) &&
      (forall i, j :: 0 <= i < j < |extras| ==> extras[i] != extras[j])
    }

    ghost predicate Valid()
      reads this, heap
    {
      heap.Valid() && Owned() <= heap.live && |extras| <= MaxExtraImages && Disjoint()
    }

    constructor (heap: Heap<byte>)
      requires heap.Valid()
      ensures Valid() && this.heap == heap && Owned() == {}
      ensures recentData == "" && recentData2 == "" && !removeLimits && totalImgGens == 0
    {
      this.heap := heap;
      inputImage, inputMask, upscaleSrc, extras := null, null, null, [];
      recentData, recentData2, removeLimits, totalImgGens := "", "", false, 0;
    }

    /** The "just in time free" of the extra images: each is freed once, in order. */
    method FreeExtras()
      requires Valid()
      modifies this, heap
      ensures Valid() && extras == []
      ensures heap.live == old(heap.live) - old(ExtraSet()) && heap.freed == old(heap.freed) + old(extras)
      ensures heap.attempts == old(heap.attempts)
      ensures inputImage == old(inputImage) && inputMask == old(inputMask) && upscaleSrc == old(upscaleSrc)
      ensures recentData == old(recentData) && recentData2 == old(recentData2)
      ensures removeLimits == old(removeLimits) && totalImgGens == old(totalImgGens)
    {
      var i := 0;
      while i < |extras|
        invariant 0 <= i <= |extras|
        invariant heap.Valid()
        invariant heap.freed == old(heap.freed) + extras[..i]
        invariant heap.live == old(heap.live) - (set k | 0 <= k < i :: extras[k])
        invariant heap.attempts == old(heap.attempts)
        modifies heap
      {
        assert extras[i] !in (set k | 0 <= k < i :: extras[k]);
        heap.Free(extras[i]);
        assert extras[..i + 1] == extras[..i] + [extras[i]];
        assert (set k | 0 <= k < i + 1 :: extras[k]) == (set k | 0 <= k < i :: extras[k]) + {extras[i]};
        i := i + 1;
      }
      assert extras[..i] == extras;
      extras := [];
    }
    /**
     * One round of the extras loop, for source `i`: load it as its route asks and, when
     * it loads, append it to `refs`, with its frame to `frames` and its index to `picked`.
     * The buffers of `refs` stay distinct and are, besides `live0`, the live buffers. A
     * model that takes no extra images loads nothing. `a0` is the allocation count when
     * the loop started.
     */
    method TakeExtra(codecs: Codecs, data: seq<string>, i: int, route: ExtraRoute, w: int, h: int,
                     refs: seq<ImageRef>, ghost want: seq<Option<Frame>>, ghost frames: seq<Frame>, ghost picked: seq<int>,
                     ghost live0: set<array<byte>>, ghost a0: nat)
      returns (img: Option<ImageRef>, refs': seq<ImageRef>, ghost frames': seq<Frame>, ghost picked': seq<int>)
      requires heap.Valid() && DecoderContract(codecs.load) && 0 <= i < Min(|data|, MaxExtraImages)
      requires Wanted(codecs, data, route, w, h, want) && |refs| <= i
      requires heap.live == live0 + Elems(Buffers(refs)) && Distinct(refs)
      requires |frames| == |refs| && forall k :: 0 <= k < |refs| ==> RefOk(refs[k], route, w, h) && FrameOf(refs[k]) == frames[k]
      requires route == Unused ==> refs == []
      requires a0 <= heap.attempts && Filled(want, i, frames, picked, heap.Granted(a0, heap.attempts))
      modifies heap
      ensures heap.Valid()
      ensures |heap.freed| >= |old(heap.freed)| && heap.freed[..|old(heap.freed)|] == old(heap.freed)
      ensures forall k :: |old(heap.freed)| <= k < |heap.freed| ==> fresh(heap.freed[k])
      ensures img.None? ==> refs' == refs
      ensures img.Some? ==> fresh(img.value.data) && refs' == refs + [img.value]
      ensures route == Unused ==> img.None?
      ensures heap.live == live0 + Elems(Buffers(refs')) && Distinct(refs')
      ensures |frames'| == |refs'| && forall k :: 0 <= k < |refs'| ==> RefOk(refs'[k], route, w, h) && FrameOf(refs'[k]) == frames'[k]
      ensures heap.attempts >= old(heap.attempts)
      ensures Filled(want, i + 1, frames', picked', heap.Granted(a0, heap.attempts))
    {
      ghost var granted := heap.Granted(a0, heap.attempts);
      ghost var before := heap.attempts;
      refs', frames', picked' := refs, frames, picked;
      img := LoadSource(codecs, data, i, route, w, h, want);
      if img.Some? {
        refs', frames', picked' := refs + [img.value], frames + [FrameOf(img.value)], picked + [i];
        BuffersAppend(refs, img.value);
      }
      heap.GrantedSplit(a0, before, heap.attempts);
      FilledStep(want, i, frames, picked, granted, heap.Granted(a0, heap.attempts),
        if img.Some? then Some(FrameOf(img.value)) else None);
    }

    /** Extra image `i` of `data`, loaded by `LoadExtra`; `want[i]` is its expected frame. */
    method LoadSource(codecs: Codecs, data: seq<string>, i: int, route: ExtraRoute, w: int, h: int, ghost want: seq<Option<Frame>>)
      returns (img: Option<ImageRef>)
      requires heap.Valid() && DecoderContract(codecs.load) && 0 <= i < |data| && Wanted(codecs, data, route, w, h, want)
      modifies heap
      ensures heap.Valid()
      ensures |heap.freed| >= |old(heap.freed)| && heap.freed[..|old(heap.freed)|] == old(heap.freed)
      ensures forall k :: |old(heap.freed)| <= k < |heap.freed| ==> fresh(heap.freed[k])
      ensures heap.attempts >= old(heap.attempts)
      ensures img.None? ==> heap.live == old(heap.live)
      ensures img.Some? ==>
        fresh(img.value.data) && heap.live == old(heap.live) + {img.value.data} && RefOk(img.value, route, w, h)
      ensures route == Unused || want[i].None? ==> img.None?
      ensures img.Some? ==> want[i] == Some(FrameOf(img.value))
      ensures want[i].Some? && heap.Granted(old(heap.attempts), heap.attempts) ==> img.Some?
    {
      img := LoadExtra(codecs, data[i], route, w, h);
      assert want[i] == ExpectedExtra(codecs, data[i], route, w, h);
    }

    /**
     * The extra images of a request (only when there are any): free the old ones, then
     * load up to four, each as its route asks, keeping those that load. The result lists
     * them in order, as the list of their route receives them; `picked` says which
     * sources they came from.
     */
    method LoadExtraImages(codecs: Codecs, data: seq<string>, route: ExtraRoute, w: int, h: int)
      returns (refs: seq<ImageRef>, ghost picked: seq<int>)
      requires Valid() && DecoderContract(codecs.load)
      modifies this, heap
      ensures Valid()
      ensures inputImage == old(inputImage) && inputMask == old(inputMask) && upscaleSrc == old(upscaleSrc)
      ensures recentData == old(recentData) && recentData2 == old(recentData2)
      ensures removeLimits == old(removeLimits) && totalImgGens == old(totalImgGens)
      ensures heap.live - Owned() == old(heap.live - Owned())
      ensures |data| == 0 ==> extras == old(extras) && heap.freed == old(heap.freed) && refs == []
      ensures |data| > 0 ==>
        |heap.freed| >= |old(heap.freed)| + |old(extras)| &&
        heap.freed[..|old(heap.freed)| + |old(extras)|] == old(heap.freed) + old(extras) &&
        (forall k :: |old(heap.freed)| + |old(extras)| <= k < |heap.freed| ==> fresh(heap.freed[k])) &&
        (forall i :: 0 <= i < |extras| ==> fresh(extras[i])) &&
        |extras| <= Min(|data|, MaxExtraImages) && |refs| == |extras| &&
        forall i :: 0 <= i < |refs| ==> refs[i].data == extras[i] && RefOk(refs[i], route, w, h)
      ensures route == Unused ==> refs == []
      ensures heap.attempts >= old(heap.attempts)
      ensures Picked(codecs, data, route, w, h, picked) && FramesOf(refs) == PickedFrames(codecs, data, route, w, h, picked)
      ensures heap.Granted(old(heap.attempts), heap.attempts) ==> NoneSkipped(codecs, data, route, w, h, picked)
    {
      refs, picked := [], [];
      if |data| == 0 {
        assert old(Owned()) <= heap.live;
        return;
      }
      FreeExtras();
      ghost var want := ExpectedExtras(codecs, data, route, w, h);
      ghost var frames;
      refs, frames, picked := FillExtras(codecs, data, route, w, h, want);
      FilledDone(codecs, data, route, w, h, want, frames, picked, heap.Granted(old(heap.attempts), heap.attempts));
      assert FramesOf(refs) == frames;
    }

    /**
     * The extra images into empty extra slots: up to four sources, each kept when it
     * loads, with the buffers of the kept ones in the slots.
     */
    method FillExtras(codecs: Codecs, data: seq<string>, route: ExtraRoute, w: int, h: int, ghost want: seq<Option<Frame>>)
      returns (refs: seq<ImageRef>, ghost frames: seq<Frame>, ghost picked: seq<int>)
      requires Valid() && DecoderContract(codecs.load) && extras == [] && Wanted(codecs, data, route, w, h, want)
      modifies this, heap
      ensures Valid()
      ensures inputImage == old(inputImage) && inputMask == old(inputMask) && upscaleSrc == old(upscaleSrc)
      ensures recentData == old(recentData) && recentData2 == old(recentData2)
      ensures removeLimits == old(removeLimits) && totalImgGens == old(totalImgGens)
      ensures heap.live == old(heap.live) + ExtraSet()
      ensures |heap.freed| >= |old(heap.freed)| && heap.freed[..|old(heap.freed)|] == old(heap.freed)
      ensures forall k :: |old(heap.freed)| <= k < |heap.freed| ==> fresh(heap.freed[k])
      ensures forall k :: 0 <= k < |extras| ==> fresh(extras[k])
      ensures |extras| <= Min(|data|, MaxExtraImages) && |refs| == |extras|
      ensures forall k :: 0 <= k < |refs| ==> refs[k].data == extras[k] && RefOk(refs[k], route, w, h)
      ensures route == Unused ==> refs == []
      ensures heap.attempts >= old(heap.attempts)
      ensures |frames| == |refs| && forall k :: 0 <= k < |refs| ==> FrameOf(refs[k]) == frames[k]
      ensures Filled(want, Min(|data|, MaxExtraImages), frames, picked, heap.Granted(old(heap.attempts), heap.attempts))
    {
      refs, frames, picked := LoadExtraRefs(codecs, data, route, w, h, want);
      KeepExtras(refs);
    }

    /**
     * The load loop of the extra images: up to four sources, each kept when it loads.
     * The buffers of the kept references are distinct, new, and, besides the buffers
     * live before, the live buffers.
     */
    method LoadExtraRefs(codecs: Codecs, data: seq<string>, route: ExtraRoute, w: int, h: int, ghost want: seq<Option<Frame>>)
      returns (refs: seq<ImageRef>, ghost frames: seq<Frame>, ghost picked: seq<int>)
      requires heap.Valid() && DecoderContract(codecs.load) && Wanted(codecs, data, route, w, h, want)
      modifies heap
      ensures heap.Valid() && heap.live == old(heap.live) + Elems(Buffers(refs)) && Distinct(refs)
      ensures |heap.freed| >= |old(heap.freed)| && heap.freed[..|old(heap.freed)|] == old(heap.freed)
      ensures forall k :: |old(heap.freed)| <= k < |heap.freed| ==> fresh(heap.freed[k])
      ensures forall k :: 0 <= k < |refs| ==> fresh(refs[k].data)
      ensures |refs| <= Min(|data|, MaxExtraImages)
      ensures route == Unused ==> refs == []
      ensures heap.attempts >= old(heap.attempts)
      ensures |frames| == |refs| && forall k :: 0 <= k < |refs| ==> RefOk(refs[k], route, w, h) && FrameOf(refs[k]) == frames[k]
      ensures Filled(want, Min(|data|, MaxExtraImages), frames, picked, heap.Granted(old(heap.attempts), heap.attempts))
    {
      refs, frames, picked := [], [], [];
      var i := 0;
      while i < |data| && i < MaxExtraImages
        invariant 0 <= i <= Min(|data|, MaxExtraImages) && |refs| <= i
        invariant heap.Valid() && heap.live == old(heap.live) + Elems(Buffers(refs)) && Distinct(refs)
        invariant |heap.freed| >= |old(heap.freed)| && heap.freed[..|old(heap.freed)|] == old(heap.freed)
        invariant forall k :: |old(heap.freed)| <= k < |heap.freed| ==> fresh(heap.freed[k])
        invariant forall k :: 0 <= k < |refs| ==> fresh(refs[k].data)
        invariant route == Unused ==> refs == []
        invariant heap.attempts >= old(heap.attempts)
        invariant |frames| == |refs| && forall k :: 0 <= k < |refs| ==> RefOk(refs[k], route, w, h) && FrameOf(refs[k]) == frames[k]
        invariant Filled(want, i, frames, picked, heap.Granted(old(heap.attempts), heap.attempts))
      {
        var img;
        img, refs, frames, picked := TakeExtra(codecs, data, i, route, w, h, refs, want, frames, picked, old(heap.live), old(heap.attempts));
        i := i + 1;
      }
    }

    /**
     * `input_extraimage_buffers.push_back` for every kept reference: the empty extra
     * slots take the buffers of `refs`, in order, which are live and held by no slot.
     */
    method KeepExtras(refs: seq<ImageRef>)
      requires Valid() && extras == [] && |refs| <= MaxExtraImages && Distinct(refs)
      requires forall k :: 0 <= k < |refs| ==> refs[k].data in heap.live && refs[k].data !in Owned()
      modifies this
      ensures Valid() && extras == Buffers(refs) && ExtraSet() == Elems(Buffers(refs))
      ensures Owned() == old(Owned()) + Elems(Buffers(refs))
      ensures inputImage == old(inputImage) && inputMask == old(inputMask) && upscaleSrc == old(upscaleSrc)
      ensures recentData == old(recentData) && recentData2 == old(recentData2)
      ensures removeLimits == old(removeLimits) && totalImgGens == old(totalImgGens)
    {
      extras := Buffers(refs);
    }

    /** The init image slot of img2img: free the old buffer, then load at the request size in RGB. */
    method LoadInitImage(codecs: Codecs, b64: string, w: int, h: int) returns (ok: bool)
      requires Valid() && DecoderContract(codecs.load)
      modifies this, heap
      ensures Valid()
      ensures inputMask == old(inputMask) && upscaleSrc == old(upscaleSrc) && extras == old(extras)
      ensures recentData == old(recentData) && recentData2 == old(recentData2)
      ensures removeLimits == old(removeLimits) && totalImgGens == old(totalImgGens)
      ensures heap.live - Owned() == old(heap.live - Owned())
      ensures ok <==> inputImage != null
      ensures ExpectedInit(codecs, b64, w, h).None? ==> !ok
      ensures ok ==> fresh(inputImage) && ExpectedInit(codecs, b64, w, h) == Some(Frame(w, h, 3, inputImage[..]))
      ensures heap.attempts >= old(heap.attempts)
      ensures ExpectedInit(codecs, b64, w, h).Some? && heap.Granted(old(heap.attempts), heap.attempts) ==> ok
    {
      if inputImage != null {
        heap.Free(inputImage);
        inputImage := null;
      }
      var loaded, nx, ny := LoadImageFromB64(heap, codecs, b64, w, h, 3);
      inputImage := loaded;
      ok := loaded != null;
    }

    /** The mask slot of img2img: free the old buffer, then load the mask (see `LoadMaskBuffer`). */
    method LoadMask(codecs: Codecs, b64: string, w: int, h: int, flip: bool)
      requires Valid() && DecoderContract(codecs.load)
      modifies this, heap
      ensures Valid()
      ensures inputImage == old(inputImage) && upscaleSrc == old(upscaleSrc) && extras == old(extras)
      ensures recentData == old(recentData) && recentData2 == old(recentData2)
      ensures removeLimits == old(removeLimits) && totalImgGens == old(totalImgGens)
      ensures heap.live - Owned() == old(heap.live - Owned())
      ensures ExpectedMask(codecs, b64, w, h, flip).None? ==> inputMask == null
      ensures inputMask != null ==> (fresh(inputMask) &&
        ExpectedMask(codecs, b64, w, h, flip) == Some(Frame(w, h, 1, inputMask[..])))
      ensures heap.attempts >= old(heap.attempts)
      ensures ExpectedMask(codecs, b64, w, h, flip).Some? && heap.Granted(old(heap.attempts), heap.attempts) ==> inputMask != null
    {
      if inputMask != null {
        heap.Free(inputMask);
        inputMask := null;
      }
      inputMask := LoadMaskBuffer(heap, codecs, b64, w, h, flip);
    }

    /**
     * The img2img inputs: the init image (the request fails when it does not load), then
     * the mask when the request has one, else the all-255 default mask.
     */
    method PrepareImg2Img(codecs: Codecs, req: Inputs, w: int, h: int) returns (ok: bool, init: Frame, mask: Option<Frame>)
      requires Valid() && DecoderContract(codecs.load) && !BadImg2ImgDimensions(w, h)
      modifies this, heap
      ensures Valid()
      ensures upscaleSrc == old(upscaleSrc) && extras == old(extras)
      ensures recentData == old(recentData) && recentData2 == old(recentData2)
      ensures removeLimits == old(removeLimits) && totalImgGens == old(totalImgGens)
      ensures heap.live - Owned() == old(heap.live - Owned())
      ensures ok <==> inputImage != null
      ensures ExpectedInit(codecs, req.initImage, w, h).None? ==> !ok
      ensures !ok ==> inputMask == old(inputMask)
      ensures ok ==> Img2ImgInputs(codecs, req, w, h, Some(init), mask)
      ensures ok && req.mask == "" ==> inputMask == old(inputMask)
      ensures heap.attempts >= old(heap.attempts)
      ensures ExpectedInit(codecs, req.initImage, w, h).Some? && heap.Granted(old(heap.attempts), heap.attempts) ==> ok
    {
      init, mask := Frame(w, h, 3, []), None;
      ok := LoadInitImage(codecs, req.initImage, w, h);
      if !ok {
        return;
      }
      init := Frame(w, h, 3, inputImage[..]);
      if req.mask != "" {
        LoadMask(codecs, req.mask, w, h, req.flipMask);
        mask := if inputMask != null then Some(Frame(w, h, 1, inputMask[..])) else None;
      } else {
        mask := Some(DefaultMask(w, h));
      }
    }

    /**
     * The first half of `sdtype_generate`: shape the request, load the extra images
     * (with the Wan fallback to the init image) and apply the PhotoMaker prompt fix.
     */
    method PrepareRequest(e: Engine, req: Inputs)
      returns (p: GenParams, route: ExtraRoute, frames: seq<Frame>, ghost picked: seq<int>)
      requires Valid() && DecoderContract(e.codecs.load)
      modifies this, heap
      ensures Valid()
      ensures heap.live - Owned() == old(heap.live - Owned())
      ensures inputImage == old(inputImage) && inputMask == old(inputMask) && upscaleSrc == old(upscaleSrc)
      ensures recentData == old(recentData) && recentData2 == old(recentData2)
      ensures removeLimits == old(removeLimits) && totalImgGens == old(totalImgGens)
      ensures SentParams(e, req, old(removeLimits), p)
      ensures route == RouteExtras(e.family, e.photomakerEnabled)
      ensures |frames| <= MaxExtraImages && (route == Unused ==> frames == [])
      ensures forall i :: 0 <= i < |frames| ==> FrameOk(frames[i], route, p.width, p.height)
      ensures heap.attempts >= old(heap.attempts)
      ensures var sources := WanKeyframeSources(req.extraImages, req.initImage, IsWan(e.family.version));
        Picked(e.codecs, sources, route, p.width, p.height, picked) &&
        frames == PickedFrames(e.codecs, sources, route, p.width, p.height, picked) &&
        (heap.Granted(old(heap.attempts), heap.attempts) ==> NoneSkipped(e.codecs, sources, route, p.width, p.height, picked))
    {
      p := ShapeRequest(e, req, removeLimits);
      var sources := WanKeyframeSources(req.extraImages, req.initImage, IsWan(e.family.version));
      route := RouteExtras(e.family, e.photomakerEnabled);
      var refs;
      refs, picked := LoadExtraImages(e.codecs, sources, route, p.width, p.height);
      frames := FramesOf(refs);
      FramesKeepShape(refs, route, p.width, p.height);
      ghost var shaped := p;
      p := p.(prompt := SentPrompt(e, p.prompt, sources), distilledGuidance := SentGuidance(e, req.distilledGuidance));
      assert p.(prompt := shaped.prompt, distilledGuidance := shaped.distilledGuidance) == shaped;
    }

    /**
     * The images of the engine call, by mode. Img2img first rejects sides that are not
     * positive multiples of 64, then loads its init image and mask.
     */
    method Condition(e: Engine, req: Inputs, mode: Mode, route: ExtraRoute, frames: seq<Frame>, w: int, h: int)
      returns (ok: bool, c: Conditioning)
      requires Valid() && DecoderContract(e.codecs.load)
      requires mode == SelectMode(e.isVidModel, req.initImage)
      requires |frames| <= MaxExtraImages && forall i :: 0 <= i < |frames| ==> FrameOk(frames[i], route, w, h)
      modifies this, heap
      ensures Valid()
      ensures heap.live - Owned() == old(heap.live - Owned())
      ensures upscaleSrc == old(upscaleSrc) && extras == old(extras)
      ensures recentData == old(recentData) && recentData2 == old(recentData2)
      ensures removeLimits == old(removeLimits) && totalImgGens == old(totalImgGens)
      ensures mode != Img2Img ==> ok && inputImage == old(inputImage) && inputMask == old(inputMask)
      ensures mode == Img2Img && BadImg2ImgDimensions(w, h) ==>
        !ok && inputImage == old(inputImage) && inputMask == old(inputMask)
      ensures mode == Img2Img && !BadImg2ImgDimensions(w, h) ==> (ok <==> inputImage != null)
      ensures mode == Img2Img && ExpectedInit(e.codecs, req.initImage, w, h).None? ==> !ok
      ensures ok ==> CondFits(c, mode, route, w, h) && RoutedExtras(c, mode, route, frames)
      ensures ok && mode == Img2Img ==> w >= 0 && h >= 0 && Img2ImgInputs(e.codecs, req, w, h, c.initImage, c.mask)
      ensures heap.attempts >= old(heap.attempts)
      ensures mode == Img2Img && !BadImg2ImgDimensions(w, h) && ExpectedInit(e.codecs, req.initImage, w, h).Some? ==>
        (heap.Granted(old(heap.attempts), heap.attempts) ==> ok)
    {
      ok := true;
      if mode == Video {
        c := Conditioning([], [], Keyframes(route, frames), None, None);
        return;
      }
      var refImages := if route == ScaledReference || route == Reference then frames else [];
      var idImages := if route == PhotoMakerId then frames else [];
      c := Conditioning(refImages, idImages, (None, None), None, None);
      if mode == Img2Img {
        if BadImg2ImgDimensions(w, h) {
          ok := false;
          return;
        }
        var init, mask;
        ok, init, mask := PrepareImg2Img(e.codecs, req, w, h);
        c := c.(initImage := Some(init), mask := mask);
      }
    }

    /**
     * The part of `sdtype_generate` before the engine call: prepare the request, store
     * this request's `remove_limits`, and gather the images of its mode. `ok` is false
     * only for an img2img request whose init image did not load.
     */
    method Setup(e: Engine, req: Inputs) returns (ok: bool, p: GenParams, cond: Conditioning, ghost picked: seq<int>)
      requires Valid() && DecoderContract(e.codecs.load)
      modifies this, heap
      ensures Valid()
      ensures heap.live - Owned() == old(heap.live - Owned())
      ensures upscaleSrc == old(upscaleSrc)
      ensures recentData == old(recentData) && recentData2 == old(recentData2) && totalImgGens == old(totalImgGens)
      ensures removeLimits == req.removeLimits && SentParams(e, req, old(removeLimits), p)
      ensures var mode := SelectMode(e.isVidModel, req.initImage);
        (ok <==> mode != Img2Img || inputImage != null) &&
        (mode == Img2Img && ExpectedInit(e.codecs, req.initImage, p.width, p.height).None? ==> !ok) &&
        (ok ==> CondFits(cond, mode, RouteExtras(e.family, e.photomakerEnabled), p.width, p.height)) &&
        (ok && mode == Img2Img ==> Img2ImgInputs(e.codecs, req, p.width, p.height, cond.initImage, cond.mask))
      ensures heap.attempts >= old(heap.attempts)
      ensures var mode := SelectMode(e.isVidModel, req.initImage);
        mode == Img2Img && ExpectedInit(e.codecs, req.initImage, p.width, p.height).Some? ==>
        (heap.Granted(old(heap.attempts), heap.attempts) ==> ok)
      ensures ok ==>
        ExtrasSent(e.codecs, WanKeyframeSources(req.extraImages, req.initImage, IsWan(e.family.version)),
          RouteExtras(e.family, e.photomakerEnabled), p.width, p.height, SelectMode(e.isVidModel, req.initImage),
          picked, cond, heap.Granted(old(heap.attempts), heap.attempts))
    {
      var route, frames;
      p, route, frames, picked := PrepareRequest(e, req);
      ghost var mid := heap.attempts;
      removeLimits := req.removeLimits;
      var mode := SelectMode(e.isVidModel, req.initImage);
      ok, cond := Condition(e, req, mode, route, frames, p.width, p.height);
      heap.GrantedSplit(old(heap.attempts), mid, heap.attempts);
    }

    /**
     * `sdtype_generate` past its readiness test: set the request up, then generate and
     * publish; fails without an engine call when img2img has no init image.
     */
    method Run(e: Engine, req: Inputs)
      returns (out: Output, ghost sent: GenParams, ghost cond: Conditioning, ghost picked: seq<int>)
      requires Valid() && DecoderContract(e.codecs.load) && e.ready
      modifies this, heap
      ensures Valid()
      ensures heap.live - Owned() == old(heap.live - Owned())
      ensures upscaleSrc == old(upscaleSrc)
      ensures out.status == 0 || out.status == 1
      ensures out.status == 0 ==>
        out == Failed && totalImgGens == old(totalImgGens) && recentData == old(recentData) && recentData2 == old(recentData2)
      ensures out.status == 1 ==>
        totalImgGens == old(totalImgGens) + 1 && out.data == recentData && out.dataExtra == recentData2
      ensures removeLimits == req.removeLimits && SentParams(e, req, old(removeLimits), sent)
      ensures
        var mode := SelectMode(e.isVidModel, req.initImage);
        var result := e.generate(mode, sent, DoTile(sent.width, sent.height, e.tileThreshold), req.vidReqFrames, cond);
        (out.status == 1 <==> (mode != Img2Img || inputImage != null) && result.Some?) &&
        (mode == Img2Img && ExpectedInit(e.codecs, req.initImage, sent.width, sent.height).None? ==> out == Failed) &&
        (out.status == 1 ==>
          (recentData, recentData2, out.animated) ==
            Emitted(e, req, result.value, if mode == Video then result.value.count else 1, (old(recentData), old(recentData2))))
      ensures out.status == 1 ==>
        CondFits(cond, SelectMode(e.isVidModel, req.initImage), RouteExtras(e.family, e.photomakerEnabled), sent.width, sent.height)
      ensures out.status == 1 && SelectMode(e.isVidModel, req.initImage) == Img2Img ==>
        Img2ImgInputs(e.codecs, req, sent.width, sent.height, cond.initImage, cond.mask)
      ensures heap.attempts >= old(heap.attempts)
      ensures out.status == 1 ==>
        ExtrasSent(e.codecs, WanKeyframeSources(req.extraImages, req.initImage, IsWan(e.family.version)),
          RouteExtras(e.family, e.photomakerEnabled), sent.width, sent.height, SelectMode(e.isVidModel, req.initImage),
          picked, cond, heap.Granted(old(heap.attempts), heap.attempts))
    {
      var ok, p, c;
      ok, p, c, picked := Setup(e, req);
      sent, cond := p, c;
      out := Failed;
      if ok {
        out := Render(e, req, SelectMode(e.isVidModel, req.initImage), p, c);
      }
    }

    /**
     * `sdtype_generate`: set the request up, generate a video, a text-to-image or an
     * img2img result, and route it to the output strings. `sent` and `cond` are what
     * the engine call receives.
     */
    method Generate(e: Engine, req: Inputs)
      returns (out: Output, ghost sent: GenParams, ghost cond: Conditioning, ghost picked: seq<int>)
      requires Valid() && DecoderContract(e.codecs.load)
      modifies this, heap
      ensures Valid()
      ensures heap.live - Owned() == old(heap.live - Owned())
      ensures upscaleSrc == old(upscaleSrc)
      ensures !e.ready ==>
        out == Failed && extras == old(extras) && inputImage == old(inputImage) && inputMask == old(inputMask) &&
        heap.live == old(heap.live) && removeLimits == old(removeLimits)
      ensures out.status == 0 || out.status == 1
      ensures out.status == 0 ==>
        out == Failed && totalImgGens == old(totalImgGens) && recentData == old(recentData) && recentData2 == old(recentData2)
      ensures out.status == 1 ==>
        totalImgGens == old(totalImgGens) + 1 && out.data == recentData && out.dataExtra == recentData2
      ensures e.ready ==> removeLimits == req.removeLimits && SentParams(e, req, old(removeLimits), sent)
      ensures e.ready ==>
        var mode := SelectMode(e.isVidModel, req.initImage);
        var result := e.generate(mode, sent, DoTile(sent.width, sent.height, e.tileThreshold), req.vidReqFrames, cond);
        (out.status == 1 <==> (mode != Img2Img || inputImage != null) && result.Some?) &&
        (mode == Img2Img && ExpectedInit(e.codecs, req.initImage, sent.width, sent.height).None? ==> out == Failed) &&
        (out.status == 1 ==>
          (recentData, recentData2, out.animated) ==
            Emitted(e, req, result.value, if mode == Video then result.value.count else 1, (old(recentData), old(recentData2))))
      ensures e.ready && out.status == 1 ==>
        CondFits(cond, SelectMode(e.isVidModel, req.initImage), RouteExtras(e.family, e.photomakerEnabled), sent.width, sent.height)
      ensures e.ready && out.status == 1 && SelectMode(e.isVidModel, req.initImage) == Img2Img ==>
        Img2ImgInputs(e.codecs, req, sent.width, sent.height, cond.initImage, cond.mask)
      ensures heap.attempts >= old(heap.attempts)
      ensures e.ready && out.status == 1 ==>
        ExtrasSent(e.codecs, WanKeyframeSources(req.extraImages, req.initImage, IsWan(e.family.version)),
          RouteExtras(e.family, e.photomakerEnabled), sent.width, sent.height, SelectMode(e.isVidModel, req.initImage),
          picked, cond, heap.Granted(old(heap.attempts), heap.attempts))
    {
      if !e.ready {
        sent, cond, picked := RequestParams(e, req), Conditioning([], [], (None, None), None, None), [];
        return Failed, sent, cond, picked;
      }
      out, sent, cond, picked := Run(e, req);
    }

    /**
     * The engine call of `sdtype_generate` and what follows it: a NULL result fails
     * and changes nothing; otherwise the new output strings, status 1 and one more
     * generation.
     */
    method Render(e: Engine, req: Inputs, mode: Mode, p: GenParams, c: Conditioning) returns (out: Output)
      modifies this
      ensures inputImage == old(inputImage) && inputMask == old(inputMask) && upscaleSrc == old(upscaleSrc)
      ensures extras == old(extras) && removeLimits == old(removeLimits)
      ensures var result := e.generate(mode, p, DoTile(p.width, p.height, e.tileThreshold), req.vidReqFrames, c);
        (result.None? ==>
          out == Failed && totalImgGens == old(totalImgGens) &&
          recentData == old(recentData) && recentData2 == old(recentData2)) &&
        (result.Some? ==>
          totalImgGens == old(totalImgGens) + 1 &&
          (recentData, recentData2, out.animated) ==
            Emitted(e, req, result.value, if mode == Video then result.value.count else 1, (old(recentData), old(recentData2))) &&
          out.data == recentData && out.dataExtra == recentData2 && out.status == 1)
    {
      var result := e.generate(mode, p, DoTile(p.width, p.height, e.tileThreshold), req.vidReqFrames, c);
      if result.None? {
        return Failed;
      }
      var r := Emitted(e, req, result.value, if mode == Video then result.value.count else 1, (recentData, recentData2));
      recentData, recentData2 := r.0, r.1;
      totalImgGens := totalImgGens + 1;
      out := Output(recentData, recentData2, r.2, 1);
    }

    /** The source slot of `sdtype_upscale`: free the old buffer, then load the image as it is, in RGB. */
    method LoadUpscaleSource(codecs: Codecs, b64: string) returns (ok: bool, width: int, height: int)
      requires Valid() && DecoderContract(codecs.load)
      modifies this, heap
      ensures Valid()
      ensures inputImage == old(inputImage) && inputMask == old(inputMask) && extras == old(extras)
      ensures recentData == old(recentData) && recentData2 == old(recentData2)
      ensures removeLimits == old(removeLimits) && totalImgGens == old(totalImgGens)
      ensures heap.live - Owned() == old(heap.live - Owned())
      ensures ok <==> upscaleSrc != null
      ensures Expected(codecs, b64, 0, 0, 3).None? ==> !ok
      ensures ok ==> fresh(upscaleSrc) && Expected(codecs, b64, 0, 0, 3) == Some((width, height, upscaleSrc[..]))
    {
      if upscaleSrc != null {
        heap.Free(upscaleSrc);
        upscaleSrc := null;
      }
      var loaded;
      loaded, width, height := LoadImageFromB64(heap, codecs, b64, 0, 0, 3);
      upscaleSrc := loaded;
      ok := loaded != null;
    }

    /**
     * `sdtype_upscale`: with an engine and an upscaler, load the source image, upscale
     * it by `factor` and return its PNG; the status is 1 exactly when the image loaded.
     */
    method Upscale(e: Engine, b64: string, factor: int) returns (out: Output)
      requires Valid() && DecoderContract(e.codecs.load)
      modifies this, heap
      ensures Valid()
      ensures heap.live - Owned() == old(heap.live - Owned())
      ensures inputImage == old(inputImage) && inputMask == old(inputMask) && extras == old(extras)
      ensures removeLimits == old(removeLimits) && totalImgGens == old(totalImgGens)
      ensures !(e.ready && e.hasUpscaler) ==>
        out == Failed && upscaleSrc == old(upscaleSrc) && heap.live == old(heap.live) &&
        recentData == old(recentData) && recentData2 == old(recentData2)
      ensures e.ready && e.hasUpscaler ==> (out.status == 1 <==> upscaleSrc != null)
      ensures e.ready && e.hasUpscaler && Expected(e.codecs, b64, 0, 0, 3).None? ==> out == Failed
      ensures out.status != 1 ==> out == Failed && recentData == old(recentData) && recentData2 == old(recentData2)
      ensures out.status == 1 ==>
        fresh(upscaleSrc) && Expected(e.codecs, b64, 0, 0, 3).Some? &&
        var x := Expected(e.codecs, b64, 0, 0, 3).value;
        upscaleSrc[..] == x.2 &&
        (recentData, recentData2) ==
          PngSlot(e.encodePng(e.upscale(Frame(x.0, x.1, 3, x.2), factor)), (old(recentData), old(recentData2))) &&
        out == Output(recentData, recentData2, false, 1)
    {
      if !(e.ready && e.hasUpscaler) {
        return Failed;
      }
      var ok, nx, ny := LoadUpscaleSource(e.codecs, b64);
      out := Failed;
      if ok {
        var source := Frame(nx, ny, 3, upscaleSrc[..]);
        var upscaled := e.upscale(source, factor);
        var s := PngSlot(e.encodePng(upscaled), (recentData, recentData2));
        recentData, recentData2 := s.0, s.1;
        out := Output(recentData, recentData2, false, 1);
      }
    }

    /**
     * One extra image: loaded at the requested size for Wan, else as it is; a Qwen-Image
     * or Flux2 reference above 512 x 512 is then scaled down. A model that takes no extra
     * images loads nothing.
     */
    method LoadExtra(codecs: Codecs, b64: string, route: ExtraRoute, w: int, h: int) returns (img: Option<ImageRef>)
      requires heap.Valid() && DecoderContract(codecs.load)
      modifies heap
      ensures heap.Valid()
      ensures |heap.freed| >= |old(heap.freed)| && heap.freed[..|old(heap.freed)|] == old(heap.freed)
      ensures forall k :: |old(heap.freed)| <= k < |heap.freed| ==> fresh(heap.freed[k])
      ensures heap.attempts >= old(heap.attempts)
      ensures img.None? ==> heap.live == old(heap.live)
      ensures img.Some? ==>
        fresh(img.value.data) && heap.live == old(heap.live) + {img.value.data} && RefOk(img.value, route, w, h)
      ensures route == Unused || ExpectedExtra(codecs, b64, route, w, h).None? ==> img.None?
      ensures img.Some? ==> ExpectedExtra(codecs, b64, route, w, h) == Some(FrameOf(img.value))
      ensures ExpectedExtra(codecs, b64, route, w, h).Some? && heap.Granted(old(heap.attempts), heap.attempts) ==> img.Some?
    {
      if route == Unused {
        return None;
      }
      var ew, eh := if route == WanFrames then w else 0, if route == WanFrames then h else 0;
      var loaded, nx, ny := LoadImageFromB64(heap, codecs, b64, ew, eh, 3);
      if loaded == null {
        return None;
      }
      ExpectedShape(codecs, b64, ew, eh, 3);
      if route == ScaledReference {
        ghost var mid := heap.attempts;
        loaded, nx, ny := ScaleReference(heap, codecs.resample, loaded, nx, ny);
        if loaded == null {
          assert !heap.Granted(mid, heap.attempts);
          return None;
        }
      }
      return Some(ImageRef(nx, ny, 3, loaded));
    }
  }
}
