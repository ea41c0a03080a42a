/**
 * The request rules of the image adapter that are pure decisions: the per-family
 * corrections of the sampling parameters, the load-time tiling threshold, the side and
 * area limits handed to the resolution solver, the tiling decision, the Wan keyframe
 * fallback and mapping, the generation mode, and how video output is routed.
 *
 * Float parameters (`cfg_scale`, the distilled guidance, the denoising strength) are
 * modelled as exact reals; every comparison the adapter makes on them is exact on the
 * values involved.
 */
module Request {
  import opened Common
  import opened Names
  import Resolution

  /** The model families the adapter tells apart (`SDVersion`). */
  datatype Version =
    | SD1 | SD2 | SDXL | Flux | Flux2 | Flux2Klein | QwenImage | ZImage | SDXS
    | Wan2 | Wan22I2V | Wan22TI2V
    | OtherVersion

  /** The loaded model: its version and whether it is a Chroma model (only meaningful for Flux). */
  datatype Family = Family(version: Version, isChroma: bool)

  predicate IsWan(v: Version)
  {
    v == Wan2 || v == Wan22I2V || v == Wan22TI2V
  }

  predicate IsQwenImage(v: Version)
  {
    v == QwenImage
  }

  /** Flux but not Chroma: the Kontext path, which takes reference images. */
  predicate IsKontext(f: Family)
  {
    f.version == Flux && !f.isChroma
  }

  predicate IsFlux2(v: Version)
  {
    v == Flux2 || v == Flux2Klein
  }

  /** The fields of `sd_params` a request sets. */
  datatype GenParams = GenParams(
    prompt: string,
    negativePrompt: string,
    cfgScale: real,
    distilledGuidance: real,
    sampleSteps: int,
    shiftedTimestep: int,
    seed: int,
    width: int,
    height: int,
    strength: real,
    clipSkip: int,
    sampleMethod: SampleMethod,
    scheduler: nat)

  /** The parameters may differ from `p` only in cfg scale, sampler and step count. */
  predicate OnlySamplingChanged(p: GenParams, r: GenParams)
  {
    r == p.(cfgScale := r.cfgScale, sampleMethod := r.sampleMethod, sampleSteps := r.sampleSteps)
  }

  /**
   * The per-family corrections, in the order the adapter applies them. `removeLimits`
   * is the adapter's stored flag, which at this point still holds the previous
   * request's value.
   */
  function FamilyCorrections(p: GenParams, f: Family, removeLimits: bool): (r: GenParams)
    ensures OnlySamplingChanged(p, r)
    ensures IsKontext(f) ==> r.cfgScale == 1.0
    ensures f.version == Flux && f.isChroma ==> r.cfgScale == p.cfgScale
    ensures f.version == Flux && p.sampleMethod == EulerA ==> r.sampleMethod == Euler
    ensures !(f.version == Flux && p.sampleMethod == EulerA) ==> r.sampleMethod == p.sampleMethod
    ensures f.version == ZImage && !removeLimits ==> r.cfgScale == (if p.cfgScale > 4.0 then 4.0 else p.cfgScale)
    ensures f.version == SDXS ==>
      if p.cfgScale > 1.0 || p.sampleSteps > 1 then r.cfgScale == 1.0 && r.sampleSteps == 1
      else r.cfgScale == p.cfgScale && r.sampleSteps == p.sampleSteps
    ensures f.version !in {Flux, ZImage, SDXS} || (f.version == ZImage && removeLimits) ==> r == p
    ensures f.version != SDXS ==> r.sampleSteps == p.sampleSteps
  {
    var p1 :=
      if f.version == Flux then
        var q := if !f.isChroma && p.cfgScale != 1.0 then p.(cfgScale := 1.0) else p;
        if q.sampleMethod == EulerA then q.(sampleMethod := Euler) else q
      else p;
    var p2 :=
      if !removeLimits && f.version == ZImage && p1.cfgScale > 4.0 then p1.(cfgScale := 4.0) else p1;
    if f.version == SDXS && (p2.cfgScale > 1.0 || p2.sampleSteps > 1) then
      p2.(cfgScale := 1.0, sampleSteps := 1)
    else p2
  }

  /** Applying the corrections a second time changes nothing. */
  lemma FamilyCorrectionsIdempotent(p: GenParams, f: Family, removeLimits: bool)
    ensures FamilyCorrections(FamilyCorrections(p, f, removeLimits), f, removeLimits)
         == FamilyCorrections(p, f, removeLimits)
  {
  }

  /**
   * The Z-Image cap reads the stored flag before this request's `remove_limits` is
   * copied in, so a request is capped or not according to the request before it.
   */
  lemma ZImageCapFollowsPreviousRequest(p: GenParams, previousRemoveLimits: bool, currentRemoveLimits: bool)
    requires p.cfgScale > 4.0 && !previousRemoveLimits && currentRemoveLimits
    ensures FamilyCorrections(p, Family(ZImage, false), previousRemoveLimits).cfgScale == 4.0
    ensures FamilyCorrections(p, Family(ZImage, false), currentRemoveLimits).cfgScale == p.cfgScale
  {
  }

  // ---------------------------------------------------------------------------
  // Load-time configuration

  const MaxTileThreshold: int := 8192

  /**
   * The tiled-VAE threshold kept at load time: values above 8192 become 8192, values at
   * most 0 become 8192 ("do not tile"), and TAESD raises anything below 8192 to 8192.
   */
  function TileThreshold(configured: int, taesd: bool): (t: int)
    ensures 1 <= t <= MaxTileThreshold
    ensures taesd || configured <= 0 ==> t == MaxTileThreshold
    ensures !taesd && 1 <= configured <= MaxTileThreshold ==> t == configured
    ensures !taesd && configured > MaxTileThreshold ==> t == MaxTileThreshold
  {
    var t0 := if configured > 8192 then 8192 else configured;
    var t1 := if t0 <= 0 then 8192 else t0;
    if taesd && t1 < 8192 then 8192 else t1
  }

  /** `is_vid_model`: set at load time for the Wan families only. */
  function IsVideoModel(v: Version): (b: bool)
    ensures b <==> v in {Wan2, Wan22I2V, Wan22TI2V}
  {
    v == Wan2 || v == Wan22I2V || v == Wan22TI2V
  }

  /** PhotoMaker is enabled exactly when a PhotoMaker file name is given. */
  function PhotoMakerEnabled(photomakerFilename: string): (b: bool)
    ensures b <==> |photomakerFilename| > 0
  {
    photomakerFilename != ""
  }

  // ---------------------------------------------------------------------------
  // Limits and tiling for one request

  /** `img_hard_limit`: 8192 unless a positive side limit is configured, which is clamped to [64, 8192]. */
  function HardSideLimit(cfgSideLimit: int): (r: int)
    ensures Resolution.MinSide <= r <= Resolution.MaxSide
    ensures cfgSideLimit <= 0 ==> r == 8192
    ensures 64 <= cfgSideLimit <= 8192 ==> r == cfgSideLimit
    ensures 0 < cfgSideLimit < 64 ==> r == 64
  {
    if cfgSideLimit > 0 then Max(Min(cfgSideLimit, 8192), 64) else 8192
  }

  /**
   * `img_soft_limit`: the model default (832 for SD1 and SD2, 1024 otherwise) unless a
   * positive square limit is configured, which is clamped to [64, 2048].
   */
  function SoftAreaLimit(cfgSquareLimit: int, v: Version): (r: int)
    ensures Resolution.MinSide <= r <= Resolution.MaxSoftLimit
    ensures cfgSquareLimit <= 0 ==> r == (if v == SD1 || v == SD2 then 832 else 1024)
    ensures 0 < cfgSquareLimit < 64 ==> r == 64
    ensures 64 <= cfgSquareLimit <= 2048 ==> r == cfgSquareLimit
    ensures cfgSquareLimit > 2048 ==> r == 2048
  {
    if cfgSquareLimit <= 0 then (if v == SD1 || v == SD2 then 832 else 1024)
    else Max(Min(cfgSquareLimit, 2048), 64)
  }

  /** `dotile`: tile the VAE when the image area exceeds the threshold squared. */
  predicate DoTile(width: int, height: int, threshold: int)
  {
    width * height > threshold * threshold
  }

  /**
   * The solver keeps the area at most 2048², so a threshold of at least 2048 (in
   * particular the "never tile" value 8192) never tiles.
   */
  lemma LargeThresholdNeverTiles(width: int, height: int, softLimit: int, threshold: int)
    requires 0 <= softLimit <= Resolution.MaxSoftLimit && Resolution.MaxSoftLimit <= threshold
    requires width * height <= softLimit * softLimit
    ensures !DoTile(width, height, threshold)
  {
    Resolution.MulBoth(softLimit, threshold, softLimit, threshold);
  }

  /** TAESD turns tiling off for every size the solver can produce. */
  lemma TaesdNeverTiles(configured: int, width: int, height: int, softLimit: int)
    requires 0 <= softLimit <= Resolution.MaxSoftLimit && width * height <= softLimit * softLimit
    ensures !DoTile(width, height, TileThreshold(configured, true))
  {
    LargeThresholdNeverTiles(width, height, softLimit, TileThreshold(configured, true));
  }

  // ---------------------------------------------------------------------------
  // Keyframes, modes and output routing

  /** The Wan fallback: with no extra images, an img2img request's init image becomes the keyframe. */
  function WanKeyframeSources(extraImages: seq<string>, initImage: string, isWan: bool): (r: seq<string>)
    ensures isWan && |extraImages| == 0 && initImage != "" ==> r == [initImage]
    ensures !(isWan && |extraImages| == 0 && initImage != "") ==> r == extraImages
  {
    if isWan && |extraImages| == 0 && initImage != "" then extraImages + [initImage] else extraImages
  }

  /** The keyframes of a video request: the first loaded image opens it, the second ends it. */
  function WanKeyframes<T>(wanImages: seq<T>): (r: (Option<T>, Option<T>))
    ensures |wanImages| >= 1 <==> r.0.Some?
    ensures |wanImages| >= 2 <==> r.1.Some?
    ensures r.0.Some? ==> r.0.value == wanImages[0]
    ensures r.1.Some? ==> r.1.value == wanImages[1]
  {
    var init := if |wanImages| >= 1 then Some(wanImages[0]) else None;
    var end := if |wanImages| >= 2 then Some(wanImages[1]) else None;
    (init, end)
  }

  datatype Mode = Video | Txt2Img | Img2Img

  /** Video for a video model, else text-to-image without an init image, else image-to-image. */
  function SelectMode(isVidModel: bool, initImage: string): (m: Mode)
    ensures m == Video <==> isVidModel
    ensures m == Img2Img <==> !isVidModel && initImage != ""
  {
    if isVidModel then Video else if initImage == "" then Txt2Img else Img2Img
  }

  /** The img2img dimension check: rejects sides that are not positive multiples of 64. */
  predicate BadImg2ImgDimensions(width: int, height: int)
  {
    width <= 0 || width % 64 != 0 || height <= 0 || height % 64 != 0
  }

  /** Output is animated only for a multi-frame request that produced several frames on a video model. */
  predicate Animated(vidReqFrames: int, generatedFrames: int, isVidModel: bool)
  {
    vidReqFrames > 1 && generatedFrames > 1 && isVidModel
  }

  /** The encoder results of one video: a status and the encoded bytes (already base64 text). */
  datatype Encoded = Encoded(status: int, length: nat, text: string)

  /**
   * The two output strings of a video: the GIF is produced for output types 0 and 2,
   * the AVI for 1 and 2; an encoding counts when its status is 0 and it is non-empty.
   * The AVI goes to the main slot when that is still empty, otherwise to the extra one.
   */
  function VideoPayload(outputType: int, gif: Encoded, avi: Encoded): (r: (string, string))
    ensures var gifOk := (outputType == 0 || outputType == 2) && gif.status == 0 && gif.length > 0;
      var aviOk := (outputType == 1 || outputType == 2) && avi.status == 0 && avi.length > 0;
      (gifOk && gif.text != "" ==> r.0 == gif.text) &&
      (!gifOk && aviOk ==> r == (avi.text, "")) &&
      (gifOk && aviOk && gif.text != "" ==> r.1 == avi.text) &&
      (!aviOk ==> r.1 == "") &&
      (!gifOk && !aviOk ==> r == ("", ""))
  {
    var gifRan := outputType == 0 || outputType == 2;
    var aviRan := outputType == 1 || outputType == 2;
    var data := if gifRan && gif.status == 0 && gif.length > 0 then gif.text else "";
    if aviRan && avi.status == 0 && avi.length > 0 then
      if data == "" then (avi.text, "") else (data, avi.text)
    else (data, "")
  }

  /** An output type outside 0, 1 and 2 produces no video at all. */
  lemma UnknownOutputTypeIsEmpty(outputType: int, gif: Encoded, avi: Encoded)
    requires outputType !in {0, 1, 2}
    ensures VideoPayload(outputType, gif, avi) == ("", "")
  {
  }
}
