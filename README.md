# KoboldCpp image-generation adapter, LCM schedules, llava batch glue and hex-vocab decoder in Dafny

This project models the request path of KoboldCpp's stable-diffusion adapter
(`sdtype_generate`, `sdtype_upscale`, `sdtype_get_info` and their helpers), the two
alternative `LCMSchedule::get_sigmas` implementations, the image-embedding helpers
of the multimodal loader (`llava_image_embed_make_with_clip_img` and the
`llava_embd_batch` constructor), and the `hexfile_to_text` script that turns a
comma-separated list of hex bytes back into UTF-8 text. It also proves properties
of each.

Modules:

- `Common`: bytes, `Option`, min/max/clamp.
- `Memory`: a `Heap<T>` class that stands for `malloc`/`free`.
  - It keeps a ghost set of live buffers and a log of every freed buffer.
  - `Free` requires a live buffer, so a double free cannot verify.
  - `Malloc` may fail; an oracle decides when.
- `Resolution`: `rounddown_64`, `roundup_64`, `roundnearest` and `sd_fix_resolution`.
  - The solver is an imperative method proved equal to the function `Fixed`.
  - `Fixed` passes the rounded sides through `LimitSteps`, which is `SideFit` (the per-side limit, closest-ratio rounding) followed by `AreaFit` (the area limit, candidate rule).
  - The float ratios are exact reals.
  - The float `sqrt` scale is exact too: `trunc(side * sqrt(area / (l * s)))` is computed as an integer square root.
- `Prompt`: `clean_input_prompt` and the PhotoMaker prompt fix-up.
- `Names`: `sampler_from_name` with its alias table, `scheduler_from_name`, `get_scheduler_name`, and the scheduler list of `sdtype_get_info`.
- `Request`: the pure request rules.
  - The per-family corrections of the sampling parameters.
  - The load-time tiling threshold, the side and area limits, and the tiling decision.
  - The Wan keyframe fallback and mapping, the mode dispatch, and the GIF/AVI output routing.
- `Images`: the image pipeline.
  - `resize_image`: its centred crop window, the row-copy loop, and the resample into a new buffer with the ownership hand-off.
  - The validation done by `load_image_from_b64`.
  - The Qwen-Image/Flux2 reference downscale above 512 x 512.
- `Session`: the adapter's global state, as a class.
  - It holds the scratch slots `input_image_buffer`, `input_mask_buffer`, `upscale_src_buffer` and `input_extraimage_buffers` (at most four), plus `recent_data`/`recent_data2`, `remove_limits` and `total_img_gens`.
  - Its methods are the steps of `sdtype_generate` and `sdtype_upscale`.
  - Every method keeps `Valid()` and leaks nothing: the live buffers outside the slots are the same before and after.
  - Each slot frees its old buffer before taking a new one.
- `Selection`: the bookkeeping of a loop that visits sources in order and keeps some. It records which sources were kept, the value kept for each, and whether one can have been skipped. The extra-image loop uses it.
- `LcmGlm`: the LCM schedule built in sigma space.
  - A 50-entry Karras reference (rho 7) from which `n` indices are sampled by rounding, then a final 0.
- `LcmKimo`: the LCM schedule built from timesteps.
  - `linear_space` timesteps mapped through `t_to_sigma`, then a final 0.
- `Llava`: the multimodal embedding helpers.
  - The patch-slot rule and the max-extent scan.
  - The failure and ownership paths of building one image embedding.
  - The `llava_embd_batch` constructor, as a class over arrays.
- `HexVocab`: the vocabulary-dump decoder, with its own `Result` type for the first error.
  - Newline replacement, comma split, Python's `str.strip` and `int(h, 16)`.
  - `bytearray` and strict UTF-8 decoding.
  - A round trip from text, through a `0x%02x,` dump, back to the same text.

The engine, the codecs and base64 are not modelled. They are values of the `Engine` and `Codecs` datatypes whose fields are functions: generation, upscaling, PNG/GIF/AVI encoding, the sampler and scheduler name tables, and the image decoder and resampler. The load-time configuration the request path reads is also a set of `Engine` fields. So is the distilled guidance that `sd_img_gen_params_init` leaves in the engine parameters. For llava, the `clip_*` calls are fields of `Clip`. For the LCM schedules, `std::pow`, `t_to_sigma`, `TIMESTEPS` and `linear_space` are parameters.

## Model

| member | source | states |
|---|---|---|
| Resolution.RoundDown64 | otherarch/sdcpp/sdtype_adapter.cpp:501-503 | `n - n % 64` with C's remainder: a multiple of 64, and for `n >= 0` the largest one not above `n` |
| Resolution.RoundUp64 | otherarch/sdcpp/sdtype_adapter.cpp:505-507 | for `n >= 0`, the least multiple of 64 that is at least `n` |
| Resolution.RoundNearest | otherarch/sdcpp/sdtype_adapter.cpp:509-511 | for a positive multiple and `n >= 0`, a multiple within half a step of `n`, with halves rounded up |
| Resolution.Clamp | otherarch/sdcpp/sdtype_adapter.cpp:519-520 | each requested side lands in [64, 8192], and one already in range is kept |
| Resolution.ISqrt | otherarch/sdcpp/sdtype_adapter.cpp:551-553 | the integer square root `r * r <= n < (r + 1)^2` used for the exact scale |
| Resolution.SideFit | otherarch/sdcpp/sdtype_adapter.cpp:534-546 | after the long side becomes the hard limit, the short side is a multiple of 64 in [64, hard]; it is 64 when the truncated scaled side is at most 64; otherwise it is the rounding (down or up) whose ratio is closest to the original |
| Resolution.PickRounding | otherarch/sdcpp/sdtype_adapter.cpp:539-545 | the chosen rounding is one of the two neighbours and its ratio error is at most that of either |
| Resolution.CloserOfTwo | otherarch/sdcpp/sdtype_adapter.cpp:544 | when `down <= up`, the one-sided test `longf/down - r < r - longf/up` chooses the same rounding as a comparison of absolute errors would |
| Resolution.ScaledShort | otherarch/sdcpp/sdtype_adapter.cpp:551-552 | the truncated exact `short * sqrt(area / (long * short))`, bracketed as `r^2 * l <= area * s < (r + 1)^2 * l` |
| Resolution.ScaledLong | otherarch/sdcpp/sdtype_adapter.cpp:551-553 | the same bracket for the long side |
| Resolution.AreaFit | otherarch/sdcpp/sdtype_adapter.cpp:549-587 | over the area, the result is aligned, ordered, at most the old long side and at most the area; a scaled short side of at most 64 gives `(rounddown_64(area / 64), 64)`; otherwise the result is the candidate comparison's result |
| Resolution.RoundedCandidates | otherarch/sdcpp/sdtype_adapter.cpp:558-586 | the candidate step yields aligned, ordered sides within the area |
| Resolution.BestCandidate | otherarch/sdcpp/sdtype_adapter.cpp:563-585 | the result is floor/floor, floor/up or up/floor, never up/up; it replaces floor/floor only when strictly within the area and strictly better in ratio; no admitted candidate has a smaller error |
| Resolution.FirstCandidateOriented | otherarch/sdcpp/sdtype_adapter.cpp:570-577 | floor/up never wins when it would make the short side exceed the long side |
| Resolution.RoundDownPair | otherarch/sdcpp/sdtype_adapter.cpp:529-530 | the initial rounding keeps both oriented sides ordered, aligned and in range |
| Resolution.LimitSteps | otherarch/sdcpp/sdtype_adapter.cpp:533-587 | the side limit (long side to the limit, short side by `SideFit`) and then the area limit (`AreaFit`) give aligned, ordered sides within the hard limit and the area, and leave sides that already meet both unchanged |
| Resolution.EnforceLimits | otherarch/sdcpp/sdtype_adapter.cpp:533-587 | the two in-place limit steps compute exactly `LimitSteps`: aligned sides within the hard limit and the area, unchanged when both already hold |
| Resolution.FitsOriented | otherarch/sdcpp/sdtype_adapter.cpp:519-595 | an aligned request within both limits passes the rounding and limit steps untouched |
| Resolution.Fixed | otherarch/sdcpp/sdtype_adapter.cpp:516-596 | the clamped, oriented, rounded request through `LimitSteps` with the original ratio, turned back: both sides are multiples of 64 in [64, 8192] and within `rounddown_64(img_hard_limit)`; the area is at most `img_soft_limit²`; the long side goes to the width exactly for a landscape request |
| Resolution.FixedKeepsFit | otherarch/sdcpp/sdtype_adapter.cpp:519-596 | a request whose clamped sides are aligned and within both limits comes back from the solver unchanged |
| Resolution.FixResolution | otherarch/sdcpp/sdtype_adapter.cpp:516-596 | the method returns exactly `Fixed`'s sides, so the closest-ratio rounding and the candidate rule decide them; both sides are multiples of 64 in [64, 8192] and within `rounddown_64(img_hard_limit)`; the area is at most `img_soft_limit²`; the long side goes to the width exactly for a landscape request; a request that already fits is returned unchanged |
| Prompt.Filter | otherarch/sdcpp/sdtype_adapter.cpp:460-465 | the admitted bytes of the prompt in order, never longer than the input |
| Prompt.FilterAdmitted | otherarch/sdcpp/sdtype_adapter.cpp:462 | every byte kept passes the byte test |
| Prompt.FilterKeepsAdmitted | otherarch/sdcpp/sdtype_adapter.cpp:460-465 | a prompt of admitted bytes passes the loop unchanged |
| Prompt.CleanInputPrompt | otherarch/sdcpp/sdtype_adapter.cpp:457-469 | the push-back loop and `substr(0, 800)` give `Clean`: at most 800 bytes, all admitted |
| Prompt.CleanIsPrefixOfFilter | otherarch/sdcpp/sdtype_adapter.cpp:457-469 | the cleaned prompt is the first `min(|filtered|, 800)` admitted bytes, in order |
| Prompt.CleanIdempotent | otherarch/sdcpp/sdtype_adapter.cpp:457-469 | cleaning twice equals cleaning once |
| Prompt.SignedKeepsOnlyAscii | otherarch/sdcpp/sdtype_adapter.cpp:462 | with a signed `char`, `ch >= 0xC2` never holds, so only ASCII survives |
| Prompt.AsciiPromptUnchanged | otherarch/sdcpp/sdtype_adapter.cpp:457-469 | an ASCII prompt of at most 800 bytes comes back unchanged on either build |
| Prompt.FixPhotoMakerPrompt | otherarch/sdcpp/sdtype_adapter.cpp:990-998 | with PhotoMaker on, the prompt contains "img" and does not start with it; with it off, or on a prompt that already complies, the prompt is unchanged |
| Prompt.FixPhotoMakerIdempotent | otherarch/sdcpp/sdtype_adapter.cpp:990-998 | the fix-up applied twice equals once |
| Names.SamplerFromName | otherarch/sdcpp/sdtype_adapter.cpp:598-646 | the engine's answer when it knows the name, else the alias table's entry, else `SAMPLE_METHOD_COUNT` |
| Names.AliasesResolve | otherarch/sdcpp/sdtype_adapter.cpp:606-641 | every alias resolves to a real sampler |
| Names.SamplerUnknownIff | otherarch/sdcpp/sdtype_adapter.cpp:598-646 | the result is `SAMPLE_METHOD_COUNT` if and only if neither the engine nor the alias table knows the name |
| Names.SchedulerFromName | otherarch/sdcpp/sdtype_adapter.cpp:746-756 | a missing or unknown name gives `SCHEDULER_COUNT`, a known one the engine's scheduler |
| Names.GetSchedulerName | otherarch/sdcpp/sdtype_adapter.cpp:471-479 | "default" (or the empty suffix) for `SCHEDULER_COUNT`, else the engine's name, behind a space in suffix form |
| Names.SuffixIsSpacedName | otherarch/sdcpp/sdtype_adapter.cpp:471-479 | the suffix form is one space followed by the plain name, or empty for the default |
| Names.ListedNames | otherarch/sdcpp/sdtype_adapter.cpp:1362-1367 | the listed names never include "NONE" and there are at most `SCHEDULER_COUNT` of them |
| Names.ListedNamesComplete | otherarch/sdcpp/sdtype_adapter.cpp:1362-1367 | every scheduler whose name is not "NONE" is listed |
| Names.ListedNamesSound | otherarch/sdcpp/sdtype_adapter.cpp:1362-1367 | every listed name belongs to a scheduler |
| Names.AvailableSchedulers | otherarch/sdcpp/sdtype_adapter.cpp:1355-1375 | `sdtype_get_info`'s list is "default" followed by the engine's non-"NONE" schedulers, and the status is 0 |
| Request.FamilyCorrections | otherarch/sdcpp/sdtype_adapter.cpp:811-850 | only cfg, sampler and steps change; non-Chroma Flux forces cfg 1 and Chroma keeps its cfg; Flux and Chroma map Euler A to Euler; Z-Image caps cfg at 4 unless the stored `remove_limits` is set; SDXS sets cfg 1 and steps 1 when either exceeds 1; other families are untouched |
| Request.FamilyCorrectionsIdempotent | otherarch/sdcpp/sdtype_adapter.cpp:811-850 | applying the corrections twice equals once |
| Request.ZImageCapFollowsPreviousRequest | otherarch/sdcpp/sdtype_adapter.cpp:829-838 | the Z-Image cap depends on the stored flag, which is assigned only at line 1043: with the previous request's flag clear the cap applies, with the current request's flag set it would not |
| Request.TileThreshold | otherarch/sdcpp/sdtype_adapter.cpp:225-227 | the kept threshold is in [1, 8192]; values above 8192 become 8192, values at most 0 become 8192, and TAESD (lines 249-252) forces 8192 |
| Request.IsVideoModel | otherarch/sdcpp/sdtype_adapter.cpp:409-414 | video mode holds exactly for the three Wan versions |
| Request.PhotoMakerEnabled | otherarch/sdcpp/sdtype_adapter.cpp:270-273 | PhotoMaker is on exactly when a file name is given |
| Request.HardSideLimit | otherarch/sdcpp/sdtype_adapter.cpp:857-861 | 8192 unless a positive side limit is configured; a configured limit is clamped to [64, 8192] |
| Request.SoftAreaLimit | otherarch/sdcpp/sdtype_adapter.cpp:863-873 | 832 for SD1 and SD2 and 1024 otherwise, unless a positive square limit is configured; a configured limit is clamped to [64, 2048], so 1..63 gives 64 |
| Request.LargeThresholdNeverTiles | otherarch/sdcpp/sdtype_adapter.cpp:882 | a threshold of at least 2048 never tiles a size the solver produces |
| Request.TaesdNeverTiles | otherarch/sdcpp/sdtype_adapter.cpp:249-252 | with TAESD, no size the solver produces is tiled |
| Request.WanKeyframeSources | otherarch/sdcpp/sdtype_adapter.cpp:852-855 | a Wan img2img request with no extra images uses its init image as the one extra image; otherwise the extra images are unchanged |
| Request.WanKeyframes | otherarch/sdcpp/sdtype_adapter.cpp:1061-1071 | the first Wan image is the init image and the second the end image, each present exactly when that many images exist |
| Request.SelectMode | otherarch/sdcpp/sdtype_adapter.cpp:1045-1112 | video exactly for a video model; img2img exactly for a non-video model with an init image |
| Request.VideoPayload | otherarch/sdcpp/sdtype_adapter.cpp:1225-1258 | the GIF is made for output types 0 and 2, the AVI for 1 and 2; the AVI goes into `data` when no GIF was stored, otherwise into `data_extra` |
| Request.UnknownOutputTypeIsEmpty | otherarch/sdcpp/sdtype_adapter.cpp:1225-1258 | an output type other than 0, 1 and 2 clears both strings |
| Images.CropWindow | otherarch/sdcpp/sdtype_adapter.cpp:650-663 | the centred crop to the target aspect: a wider source keeps its height and gets the truncated width `height * ew / eh`, centred; a taller source is cropped the same way in height; an equal aspect keeps the whole image |
| Images.AspectCross | otherarch/sdcpp/sdtype_adapter.cpp:651-660 | the float aspect comparisons are the integer cross-product comparisons |
| Images.CropRowContents | otherarch/sdcpp/sdtype_adapter.cpp:676-680 | byte `j` of cropped row `r` is byte `j` of source row `crop_y + r`, starting at column `crop_x` |
| Images.CropFullWindow | otherarch/sdcpp/sdtype_adapter.cpp:654-665 | the full window is the identity crop |
| Images.CopyRows | otherarch/sdcpp/sdtype_adapter.cpp:676-680 | the `memcpy` row loop fills the crop buffer with exactly the window's rows |
| Images.Resampled | otherarch/sdcpp/sdtype_adapter.cpp:701-706 | the resampled image has `eh * ew * c` bytes, each the one the resampler gives |
| Images.FillResampled | otherarch/sdcpp/sdtype_adapter.cpp:692-706 | the `stbir_resize` call fills the new buffer with the resampled bytes |
| Images.CropImage | otherarch/sdcpp/sdtype_adapter.cpp:665-686 | the input is freed exactly once; a failed allocation gives NULL; otherwise a fresh buffer holding the crop |
| Images.ResizeImage | otherarch/sdcpp/sdtype_adapter.cpp:648-713 | unless both expected sides are positive and differ from the current sides, the same buffer and size come back and nothing is freed; otherwise the input is freed first, then any intermediate buffer, a failed allocation gives NULL, and success gives a fresh buffer with exactly the expected sides holding the resampled crop |
| Images.ExpectedShape | otherarch/sdcpp/sdtype_adapter.cpp:715-744 | a loaded image has positive sides and one pixel per position; with positive expected sides it comes back at exactly that size |
| Images.LoadImageFromB64 | otherarch/sdcpp/sdtype_adapter.cpp:715-744 | a decode failure, too few channels or a non-positive side gives NULL and frees the decoder's buffer; only buffers allocated during the call are freed; success adds exactly one fresh buffer, which holds the expected image |
| Images.RefImageTarget | otherarch/sdcpp/sdtype_adapter.cpp:940-947 | up to 512 x 512 the target is the image itself; above it each side is scaled by the exact `sqrt(262144 / (nx * ny))` and truncated, never grows, and the product never exceeds 262144 |
| Images.ScaledReferenceImage | otherarch/sdcpp/sdtype_adapter.cpp:940-953 | the reference the downscale yields: at most 512 x 512 the decoded image itself; above it, with both target sides positive, the `RefImageTarget` size holding the resampled crop; with a zero target side the image itself; the sides are positive, never grow, and fit the engine's bound |
| Images.ScaleReference | otherarch/sdcpp/sdtype_adapter.cpp:938-953 | a reference at most 512 x 512 is kept as is; a larger one is resized, or NULL when an allocation of the resize fails; a non-NULL result has exactly the size and bytes `ScaledReferenceImage` gives; it is non-NULL whenever no allocation failed; only the input or fresh buffers are freed |
| Images.DegenerateReferenceKeepsSize | otherarch/sdcpp/sdtype_adapter.cpp:943-953 | a 1 x 262145 reference has target width 0, so `resize_image` leaves it at full size |
| Session.RouteExtras | otherarch/sdcpp/sdtype_adapter.cpp:915-987 | the family priority: Wan takes keyframes, then Qwen-Image/Flux2 take scaled references, Kontext takes references, PhotoMaker takes identity images, and any other model takes none |
| Session.FramesKeepShape | otherarch/sdcpp/sdtype_adapter.cpp:925-976 | each image reference handed to the engine has the size and channels that were checked at load |
| Session.ExpectedExtra | otherarch/sdcpp/sdtype_adapter.cpp:915-986 | the frame an extra image should become: none for a model that takes no extra images; otherwise present exactly when the source decodes at the route's expected size (the request size for Wan, its own size for the others); the frame is the decoded image, passed through `ScaledReferenceImage` for Qwen-Image and Flux2, and it passes the route's size checks |
| Session.ExpectedExtras | otherarch/sdcpp/sdtype_adapter.cpp:915-916 | the expected frame of every extra image, in order (`Wanted`) |
| Session.PickedFrames | otherarch/sdcpp/sdtype_adapter.cpp:915-986 | one frame per picked index, in order, each the expected frame of the source it picks |
| Selection.FilledStep | otherarch/sdcpp/sdtype_adapter.cpp:915-986 | one round of the visit: a kept source extends the kept frames by its expected frame and the picked indices by its index, a skipped one leaves both; indices stay strictly increasing; while every allocation was granted, no source with an expected frame is skipped |
| Session.FilledDone | otherarch/sdcpp/sdtype_adapter.cpp:915-987 | after the rounds over the first `min(count, 4)` sources, the kept frames are exactly the expected frames of the picked sources, at strictly increasing indices, and, when no allocation failed, every source among them that has an expected frame is picked |
| Session.Keyframes | otherarch/sdcpp/sdtype_adapter.cpp:1061-1071 | a video call's keyframes come only from Wan images: the first two, in order |
| Session.Inverted | otherarch/sdcpp/sdtype_adapter.cpp:1150-1156 | each of the first `n` bytes becomes `255 - b` and the rest are kept |
| Session.InvertedTwice | otherarch/sdcpp/sdtype_adapter.cpp:1150-1156 | flipping a mask twice gives the mask back |
| Session.FlipMask | otherarch/sdcpp/sdtype_adapter.cpp:1150-1156 | the in-place flip loop leaves `Inverted(old mask, n)` |
| Session.FlipMaskAsWritten | otherarch/sdcpp/sdtype_adapter.cpp:1148-1156 | the flip as written: its precondition `mask != null` is what the code relies on and never checks |
| Session.MaskFlipReachesNull | otherarch/sdcpp/sdtype_adapter.cpp:1148-1156 | with a decoder that rejects the mask, `Expected` has no image, so `LoadImageFromB64` returns NULL and the as-written flip's `mask != null` precondition fails |
| Session.MaskPixels | otherarch/sdcpp/sdtype_adapter.cpp:1148-1156 | the loaded mask is flipped to `255 - b` exactly when `flip_mask` is set |
| Session.DefaultMask | otherarch/sdcpp/sdtype_adapter.cpp:1164-1171 | the default mask is all 255, sized `w * h * 3` and declared as one channel |
| Session.PngSlot | otherarch/sdcpp/sdtype_adapter.cpp:1273-1278 | a PNG that encodes replaces `recent_data` and clears `recent_data2`; a failed encode keeps both |
| Session.Shown | otherarch/sdcpp/sdtype_adapter.cpp:1264-1271 | without an upscale request or an upscaler, the frame shown is the generated one |
| Session.Emitted | otherarch/sdcpp/sdtype_adapter.cpp:1201-1283 | the output is animated exactly for a non-NULL result with `vid_req_frames > 1`, more than one frame and a video model, in which case it carries the GIF/AVI payload; a still output keeps the previous strings or replaces them with a PNG |
| Session.StaleOutputWhenNothingNew | otherarch/sdcpp/sdtype_adapter.cpp:1205-1297 | an entry whose data is NULL, or a still image whose PNG encode fails, keeps the previous request's strings, and the call still reports status 1 |
| Session.StillImageReplacesOutput | otherarch/sdcpp/sdtype_adapter.cpp:1262-1278 | a still image that encodes becomes `recent_data`, and `recent_data2` is cleared |
| Session.UnknownVideoTypeClears | otherarch/sdcpp/sdtype_adapter.cpp:1244-1258 | a video with an unknown output type clears both strings |
| Session.RequestSampler | otherarch/sdcpp/sdtype_adapter.cpp:795-800 | a known sampler name is used; `SAMPLE_METHOD_COUNT` is replaced by the engine's default |
| Session.ShapeRequest | otherarch/sdcpp/sdtype_adapter.cpp:784-875 | the copied request after the family corrections (read with the stored flag), with exactly the sides `Fixed` gives for the configured limits: aligned, within the side limit and area, and never rejected by the img2img check |
| Session.SentPrompt | otherarch/sdcpp/sdtype_adapter.cpp:989-998 | the PhotoMaker fix applies only when the request had extra images, since it sits inside that branch |
| Session.SentGuidance | otherarch/sdcpp/sdtype_adapter.cpp:1015-1017 | the engine receives the request's distilled guidance when it is not negative, and otherwise the value its parameter initialisation left |
| Session.LoadMaskBuffer | otherarch/sdcpp/sdtype_adapter.cpp:1148-1156 | the mask loads with one channel at the request size; the flip runs only on a buffer that loaded; a failed load adds no buffer; a non-NULL buffer holds the expected mask |
| Session.Session.constructor | otherarch/sdcpp/sdtype_adapter.cpp:94-100 | all slots are empty, the strings empty, the flag clear and the counter 0 |
| Session.Session.FreeExtras | otherarch/sdcpp/sdtype_adapter.cpp:907-914 | every old extra buffer is freed exactly once, in order, and the list is emptied; nothing else changes |
| Session.Session.TakeExtra | otherarch/sdcpp/sdtype_adapter.cpp:915-986 | one iteration: a failed load keeps the references and leaks nothing; a successful one appends exactly one fresh buffer, whose frame is the source's expected frame and which passed the route's size checks; the visit's bookkeeping (`Filled`) advances by one source |
| Session.Session.LoadExtraRefs | otherarch/sdcpp/sdtype_adapter.cpp:915-987 | the loop over the first `min(count, 4)` sources: each kept reference is a fresh buffer that passed the size checks; the kept frames are the expected frames of strictly increasing source indices; a source with an expected frame is skipped only after a failed allocation; every buffer it frees is fresh |
| Session.Session.KeepExtras | otherarch/sdcpp/sdtype_adapter.cpp:924-971 | the `push_back`s of the kept buffers into the empty `input_extraimage_buffers`: the slots hold exactly the kept references' buffers, in order, and the buffers the session owns grow by exactly those |
| Session.Session.FillExtras | otherarch/sdcpp/sdtype_adapter.cpp:915-987 | the extra images into empty slots: the slots hold, in order, the fresh buffers of the kept references, at most `min(count, 4)`, each passing the size checks; the kept frames are the expected frames of strictly increasing source indices, none skipped unless an allocation failed; nothing leaks |
| Session.Session.LoadExtraImages | otherarch/sdcpp/sdtype_adapter.cpp:905-987 | without extra images nothing changes; with them, the old buffers are freed first, exactly once and in order, and then at most `min(count, 4)` fresh buffers are kept in the slots; their frames are `PickedFrames` of strictly increasing indices into the first four sources, and when no allocation failed every source with an expected frame is picked; no other slot changes and nothing leaks |
| Session.Session.LoadExtra | otherarch/sdcpp/sdtype_adapter.cpp:915-986 | one extra image loads at the request size for Wan and as it is otherwise, then is downscaled for Qwen-Image and Flux2; it is absent when the model takes no extra images or its expected frame does not exist; a loaded image is one fresh buffer whose frame is exactly `ExpectedExtra`; it loads whenever its expected frame exists and no allocation failed |
| Session.Session.LoadSource | otherarch/sdcpp/sdtype_adapter.cpp:915-986 | source `i` through `LoadExtra`: the image loaded, if any, is the source's expected frame, and it loads whenever that frame exists and no allocation failed |
| Session.Session.LoadInitImage | otherarch/sdcpp/sdtype_adapter.cpp:1123-1138 | the old init buffer is freed, then the new one loads at the request size in RGB; success holds the expected image; a failed load fails |
| Session.Session.LoadMask | otherarch/sdcpp/sdtype_adapter.cpp:1140-1157 | the old mask is freed, then the new mask loads (flipped when asked); the slot is NULL when it does not load |
| Session.Session.PrepareImg2Img | otherarch/sdcpp/sdtype_adapter.cpp:1123-1174 | the request fails exactly when the init image did not load; it then goes on to the mask, or the all-255 default when the request has none |
| Session.Session.PrepareRequest | otherarch/sdcpp/sdtype_adapter.cpp:773-1017 | the parameters sent are `SentParams`: the shaped request, the PhotoMaker fix, and the distilled guidance only when it is not negative; the extra frames are `PickedFrames` of the Wan-adjusted sources under the family's route, none skipped unless an allocation failed; the image slots are untouched and nothing leaks |
| Session.Session.Condition | otherarch/sdcpp/sdtype_adapter.cpp:1045-1174 | video and txt2img always proceed; img2img fails on sides not aligned to 64 (never reached after the solver) or when the init image does not load; the reference images, identity images and keyframes are exactly `RoutedExtras` of the given frames for the mode and route; img2img gets the expected init image and mask |
| Session.Session.Setup | otherarch/sdcpp/sdtype_adapter.cpp:773-1043 | everything before the engine call: the parameters sent are `SentParams`; `remove_limits` stored from this request; fails only for img2img without an init image; the extra images handed on are `ExtrasSent`: the expected frames of the picked sources, routed by mode and model, none skipped unless an allocation failed |
| Session.Session.Render | otherarch/sdcpp/sdtype_adapter.cpp:1090-1297 | a NULL result gives status 0 and changes nothing; otherwise the counter grows by one, the strings are `Emitted`'s, and the status is 1 |
| Session.Session.Run | otherarch/sdcpp/sdtype_adapter.cpp:773-1297 | with a ready engine: status 1 exactly when the engine returned a result and, for img2img, the init image loaded; the engine receives `SentParams` and, by `ExtrasSent`, the expected frames of the picked extra images; on success, the strings, the animated flag and the counter are as the output loop gives them |
| Session.Session.Generate | otherarch/sdcpp/sdtype_adapter.cpp:758-1298 | `sdtype_generate`: without an engine it fails and changes nothing; otherwise it behaves as `Run`, including the parameters and extra images the engine receives; every path keeps the slots consistent and leaks nothing |
| Session.Session.LoadUpscaleSource | otherarch/sdcpp/sdtype_adapter.cpp:1317-1324 | the old source buffer is freed, then the image loads as it is in RGB; success means the slot holds the decoded image |
| Session.Session.Upscale | otherarch/sdcpp/sdtype_adapter.cpp:1300-1353 | without an engine or upscaler it fails and changes nothing; otherwise status 1 exactly when the source loaded, with `recent_data` set to the upscaled PNG (kept when encoding fails) |
| LcmGlm.KarrasReference | otherarch/sdcpp/lcm_glm.h:22-29 | the reference has exactly 50 entries, each the Karras formula with rho 7 |
| LcmGlm.SampleIndex | otherarch/sdcpp/lcm_glm.h:44-51 | every sampled index lies in [0, 49] |
| LcmGlm.Sigmas | otherarch/sdcpp/lcm_glm.h:10-60 | `n == 0` gives `[]`; for `n >= 1` the length is `n + 1` and the last entry is 0 |
| LcmGlm.GetSigmas | otherarch/sdcpp/lcm_glm.h:10-60 | the reference-filling loop and the push-back loop compute `Sigmas` |
| LcmGlm.RoundIsQuotient | otherarch/sdcpp/lcm_glm.h:48 | `round` of a non-negative quotient is the integer `(2a + d) / (2d)` |
| LcmGlm.SampleIndexIsQuotient | otherarch/sdcpp/lcm_glm.h:44-51 | the index is `(98 i + n - 1) / (2 (n - 1))`, already inside [0, 49], so the clamp never acts |
| LcmGlm.SampleIndexEndpoints | otherarch/sdcpp/lcm_glm.h:34-36 | the first step takes index 0 and the last index 49 |
| LcmGlm.SampleIndexMonotone | otherarch/sdcpp/lcm_glm.h:44-54 | sampled indices never decrease |
| LcmGlm.SingleStep | otherarch/sdcpp/lcm_glm.h:37-42 | `n == 1` gives exactly `[original_sigmas[0], 0]` |
| LcmGlm.ScheduleEndpoints | otherarch/sdcpp/lcm_glm.h:34-54 | for `n >= 2` the schedule starts at the reference's first entry, and its step before 0 is the reference's last |
| LcmGlm.ScheduleNonIncreasing | otherarch/sdcpp/lcm_glm.h:44-57 | a non-increasing, non-negative reference gives a non-increasing schedule |
| LcmGlm.KarrasReferenceNonIncreasing | otherarch/sdcpp/lcm_glm.h:22-29 | with `0 <= sigma_min <= sigma_max` and a `pow` that is monotone and non-negative, the reference is non-increasing and non-negative |
| LcmGlm.IgnoresTToSigma | otherarch/sdcpp/lcm_glm.h:10-12 | `t_to_sigma` has no effect on the result |
| LcmKimo.Sigmas | otherarch/sdcpp/lcm_kimo.h:8-37 | `n == 0` gives `[0]`; for `n >= 1` the length is `n + 1` and the last entry is 0 |
| LcmKimo.GetSigmas | otherarch/sdcpp/lcm_kimo.h:8-37 | the early returns and the push-back loop compute `Sigmas` |
| LcmKimo.SingleStep | otherarch/sdcpp/lcm_kimo.h:19-23 | `n == 1` gives `[t_to_sigma(TIMESTEPS - 1), 0]` |
| LcmKimo.StepIsMappedTimestep | otherarch/sdcpp/lcm_kimo.h:28-32 | for `n >= 2`, entry `i` is `t_to_sigma(linear_space(TIMESTEPS - 1, 0, n)[i])` |
| LcmKimo.IgnoresSigmaRange | otherarch/sdcpp/lcm_kimo.h:8-36 | `sigma_min` and `sigma_max` have no effect on the result |
| LcmKimo.SchedulesDisagreeOnZeroSteps | otherarch/sdcpp/lcm_kimo.h:11-14 | for zero steps this schedule returns `[0]` and the Karras-based one `[]` (lcm_glm.h lines 14-17) |
| LcmKimo.SchedulesAgreeOnShape | otherarch/sdcpp/lcm_kimo.h:16-36 | from one step on, both schedules have the same length and end in 0 |
| Llava.NumMaxPatches | tools/mtmd/llava.cpp:53-60 | 11 by default, 10 for MiniCPM-V, and 1 for GLM, which wins when both apply |
| Llava.MaxOf | tools/mtmd/llava.cpp:73-79 | the running `std::max`: at least every element and equal to one of them |
| Llava.Extent | tools/mtmd/llava.cpp:68-79 | the largest width and the largest height over the original image and all its tiles, each attained |
| Llava.MaxDims | tools/mtmd/llava.cpp:71-79 | the max-scan loop computes `Extent` |
| Llava.MakeWithClipImg | tools/mtmd/llava.cpp:52-102 | a preprocessing failure returns false before allocating; an allocation failure returns false; an encode failure frees its buffer; none of them writes an output; success hands the caller the fresh buffer of the computed size and the first tile's token counts |
| Llava.EmbdBatch.constructor | tools/mtmd/llava.cpp:111-134 | `pos[i] = pos_0 + i`, `n_seq_id[i] = 1`, `seq_id[i]` to the one-element `seq_id_0` holding `seq_id`, `logits[i]` false; `seq_ids` has `n_tokens + 1` slots and the last is NULL; the batch's token pointer is NULL |
| Llava.EmbdBatch.PositionsFit | tools/mtmd/llava.cpp:128-129 | when `pos_0 + n_tokens - 1` fits in `int32`, every position written does |
| HexVocab.ReplaceNewlines | otherarch/sdcpp/sdcpp_vocab_extract.py:11 | `replace("\n", " ")` keeps the length, changes only newlines, and leaves none |
| HexVocab.SplitPieces | otherarch/sdcpp/sdcpp_vocab_extract.py:11 | `split(",")` gives one more piece than there are commas, no piece holds a comma, and joining the pieces gives the text back |
| HexVocab.SplitJoin | otherarch/sdcpp/sdcpp_vocab_extract.py:11 | splitting undoes joining for pieces without commas |
| HexVocab.NewlinesKeepPieces | otherarch/sdcpp/sdcpp_vocab_extract.py:11 | replacing newlines before the split neither splits nor joins tokens: it yields the same pieces, each with its newlines replaced |
| HexVocab.StripIsTrimmedSlice | otherarch/sdcpp/sdcpp_vocab_extract.py:16 | `strip()` is the slice between the leading and trailing whitespace; it is empty exactly for an all-whitespace token |
| HexVocab.DigitsValueIsLiteral | otherarch/sdcpp/sdcpp_vocab_extract.py:19 | the digit part parses exactly when it is hex digits with single underscores between them, and its value is that of its digits |
| HexVocab.ParseFormatHex | otherarch/sdcpp/sdcpp_vocab_extract.py:19 | `int(h, 16)` reads the `0x%02x` spelling, prefix included, back as the byte |
| HexVocab.Kept | otherarch/sdcpp/sdcpp_vocab_extract.py:15-17 | the tokens kept are the non-empty stripped pieces |
| HexVocab.ValuesParseKept | otherarch/sdcpp/sdcpp_vocab_extract.py:14-19 | the loop that skips empty tokens computes the parse of the kept tokens |
| HexVocab.ParseAllOnePerToken | otherarch/sdcpp/sdcpp_vocab_extract.py:14-19 | a successful parse gives one value per token, in order |
| HexVocab.ValuesOnePerToken | otherarch/sdcpp/sdcpp_vocab_extract.py:14-19 | the loop succeeds exactly when every kept token parses, and then yields one value per kept token, in order |
| HexVocab.ValuesErrorSticks | otherarch/sdcpp/sdcpp_vocab_extract.py:14-19 | the first token that does not parse ends the loop with that error |
| HexVocab.ToBytes | otherarch/sdcpp/sdcpp_vocab_extract.py:22 | `bytearray` succeeds exactly when every value is in 0..255, and then holds them in order |
| HexVocab.DecodeFirst | otherarch/sdcpp/sdcpp_vocab_extract.py:25 | a decoded first character's bytes are exactly its UTF-8 encoding |
| HexVocab.DecodeThenEncode | otherarch/sdcpp/sdcpp_vocab_extract.py:25 | strict decoding loses nothing: re-encoding the text gives the bytes back |
| HexVocab.EncodeThenDecode | otherarch/sdcpp/sdcpp_vocab_extract.py:25 | decoding is the inverse of encoding on every text |
| HexVocab.HexFileToText | otherarch/sdcpp/sdcpp_vocab_extract.py:3-30 | the append loop followed by `bytearray` and `decode` computes `Decoded`: the text, or the first error |
| HexVocab.OutputIsTokenBytes | otherarch/sdcpp/sdcpp_vocab_extract.py:14-30 | the UTF-8 file written holds exactly one byte per non-empty token, with that token's value, in order |
| HexVocab.DumpPieces | otherarch/sdcpp/sdcpp_vocab_extract.py:11 | a `0x%02x,` dump splits into the bytes' spellings plus one blank trailing piece |
| HexVocab.DumpValues | otherarch/sdcpp/sdcpp_vocab_extract.py:11-22 | the values read from a dump are its bytes |
| HexVocab.DumpRoundTrip | otherarch/sdcpp/sdcpp_vocab_extract.py:3-30 | extracting the dump of any text's UTF-8 bytes gives that text back |

## Left out

- Floating point is modelled as exact real arithmetic.
  - This covers `float` ratios, `sqrtf`/`std::sqrt`, `std::pow` and `linear_space`.
  - Near a rounding boundary the result can differ by one from the IEEE computation.
- Resolution.FixResolution: requires the side limit in [64, 8192] and the area-limit side in [64, 2048]. The only call site (sdtype_adapter.cpp:857-875) guarantees this; the function itself does not check it.
- Resolution.FixResolution: models no 32-bit `int` overflow in `long * short` or `short * img_hard_limit`. Within the clamped ranges these products stay below 2^31.
- Session.Session.Upscale: the upscale factor is passed to the engine unchanged. The engine's own handling of it is not modelled.
- HexVocab.ParseHex: accepts ASCII hex digits only. Python's `int(h, 16)` also accepts every other Unicode decimal digit, such as Arabic-Indic digits; those tokens are reported as errors here.
- HexVocab.HexFileToText: the file read and write are not modelled. The model takes the text read from the input file and returns the text written; newline translation on reading is not modelled.
- Engine, codec and encoder calls are fields of `Engine`/`Codecs`.
  - Generation: `generate_image`, `generate_video`, `upscale`.
  - Codecs and encoders: `stbi_load_from_memory`, `stbir_resize`, `stbi_write_png_to_mem`, the GIF/AVI muxers, base64 encode/decode.
  - Their outputs are arbitrary functions of their inputs.
- Session.Session.FillExtras: the kept buffers join `input_extraimage_buffers` after the loop, not one `push_back` at a time. Nothing reads the slots during the loop and the loop always runs to its end, so the final state is the same.
- `sd_img_gen_params_init` is not part of this model. Of the defaults it sets, only the distilled guidance reaches the model, as an `Engine` field.
- Memory the engine allocates is not tracked: result images, the upscaled image, and the GIF/AVI/PNG buffers.
- `get_image_params` (stream formatting with `setprecision`) and all `printf` logging and timing are left out.
- From the request path: `SetCircularAxesAll`, LoRA re-application, and the timestamp string.
- `get_loaded_sd_version` and `loaded_model_is_chroma` are replaced by the `Family` input.
- `sdtype_get_info`'s JSON serialisation and its `static` cache of the first answer are left out. Only the list of names is modelled.
- The load-time code of the adapter (model paths, Vulkan environment, context creation) is left out. Only the tiling threshold, photomaker flag and video flag computed there are modelled.
- `audio_embd_make_with_clip_img` and `encode_image_with_clip`'s timing and logging in llava.cpp are left out. Encoding is the `Clip.encode` field; the float embedding values are not modelled, only buffer ownership and counts.
- The `llava_embd_batch` vectors are modelled as arrays that the batch aliases. Their later destruction is C++ RAII and is not modelled.
- Concurrency: the adapter's globals are modelled as one `Session` object used sequentially.
- The `demo_mcp.py` demo and `tools/mtmd/llava.h` are not part of this model. The first is an HTTP/OS utility; the second holds declarations only.

## Findings

| source | as written | input that shows it | evidently intended | confidence | as-written member | corrected member |
|---|---|---|---|---|---|---|
| otherarch/sdcpp/sdtype_adapter.cpp:1148-1156 | the mask is loaded into `input_mask_buffer` and, when `flip_mask` is set, flipped in place without checking for NULL | an img2img request with `flip_mask` set and a mask that decodes but whose resize allocation fails: `resize_image` frees the decoded buffer and returns NULL, `nx2`/`ny2` keep the positive decoded size, and the loop writes through NULL. A mask that does not decode also gives NULL, with `nx2`/`ny2` never set | flip only a mask that loaded | not executed | Session.FlipMaskAsWritten | Session.LoadMaskBuffer |
