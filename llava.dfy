/**
 * The image-embedding helpers of the multimodal loader: how many patch slots the
 * embedding buffer is sized for, the largest extent over the original image and its
 * preprocessed tiles (for position-rope models, whose tiles may be padded up), the
 * ownership paths of building one image embedding, and the per-token bookkeeping of
 * an embedding batch handed to the language model.
 *
 * The vision encoder is a value of type `Clip` whose operations are parameters; the
 * float embedding values it writes are not modelled, only who owns which buffer.
 */
module Llava {
  import opened Common
  import opened Memory

  const Int32Min: int := -0x8000_0000
  const Int32Max: int := 0x7fff_ffff

  predicate IsInt32(x: int) {
    Int32Min <= x <= Int32Max
  }

  /** An 8-bit input image; only its extent matters here. */
  datatype ImageU8 = ImageU8(nx: int, ny: int)

  /** One preprocessed float tile; only its extent matters here. */
  datatype ImageF32 = ImageF32(nx: int, ny: int)

  /** The vision encoder context and the queries and operations made on it. */
  datatype Clip = Clip(
    isMinicpmv: bool,
    isGlm: bool,
    isMrope: bool,
    /** `clip_image_preprocess`: the tiles, or None when preprocessing fails. */
    preprocess: ImageU8 -> Option<seq<ImageF32>>,
    /** `clip_embd_nbytes`: bytes of one patch's embedding. */
    embdNbytes: nat,
    /** `clip_embd_nbytes_by_img`: bytes of the embedding of an image of that extent. */
    embdNbytesByImg: (int, int) -> nat,
    /** `clip_n_output_tokens`, `..._x`, `..._y` on the first tile (None when there is none). */
    outputTokens: Option<ImageF32> -> (int, int, int),
    /** `clip_image_encode` on the first tile: whether encoding succeeded. */
    encode: Option<ImageF32> -> bool)

  /** The patch slots reserved for one image: 11 (Granite: ten tiles plus the base),
      10 for MiniCPM-V, 1 for GLM; the GLM test comes last and so wins. */
  function NumMaxPatches(isMinicpmv: bool, isGlm: bool): (r: int)
    ensures isGlm ==> r == 1
    ensures !isGlm && isMinicpmv ==> r == 10
    ensures !isGlm && !isMinicpmv ==> r == 11
    ensures 1 <= r <= 11
  {
    if isGlm then 1 else if isMinicpmv then 10 else 11
  }

  /** The running `std::max` of `init` and every element of `xs`, left to right. */
  function MaxOf(init: int, xs: seq<int>): (m: int)
    ensures m >= init
    ensures forall i :: 0 <= i < |xs| ==> m >= xs[i]
    ensures m == init || exists i :: 0 <= i < |xs| && m == xs[i]
  {
    if |xs| == 0 then init
    else
      var m0 := MaxOf(init, xs[..|xs| - 1]);
      assert forall i :: 0 <= i < |xs| - 1 ==> xs[..|xs| - 1][i] == xs[i];
      Max(m0, xs[|xs| - 1])
  }

  function Widths(es: seq<ImageF32>): (r: seq<int>)
    ensures |r| == |es| && forall i :: 0 <= i < |es| ==> r[i] == es[i].nx
  {
    seq(|es|, i requires 0 <= i < |es| => es[i].nx)
  }

  function Heights(es: seq<ImageF32>): (r: seq<int>)
    ensures |r| == |es| && forall i :: 0 <= i < |es| ==> r[i] == es[i].ny
  {
    seq(|es|, i requires 0 <= i < |es| => es[i].ny)
  }

  /** The extent an embedding buffer must cover for a position-rope model: the largest
      width and the largest height over the original image and all its tiles. */
  function Extent(img: ImageU8, entries: seq<ImageF32>): (r: (int, int))
    ensures r.0 >= img.nx && r.1 >= img.ny
    ensures forall i :: 0 <= i < |entries| ==> r.0 >= entries[i].nx && r.1 >= entries[i].ny
    ensures r.0 == img.nx || exists i :: 0 <= i < |entries| && r.0 == entries[i].nx
    ensures r.1 == img.ny || exists i :: 0 <= i < |entries| && r.1 == entries[i].ny
  {
    var w := MaxOf(img.nx, Widths(entries));
    var h := MaxOf(img.ny, Heights(entries));
    assert w == img.nx || exists i :: 0 <= i < |entries| && w == Widths(entries)[i];
    assert h == img.ny || exists i :: 0 <= i < |entries| && h == Heights(entries)[i];
    (w, h)
  }

  /** The scan over the preprocessed tiles that finds the extent to allocate for. */
  method MaxDims(img: ImageU8, entries: seq<ImageF32>) returns (maxNx: int, maxNy: int)
    ensures (maxNx, maxNy) == Extent(img, entries)
  {
    maxNx, maxNy := img.nx, img.ny;
    var i := 0;
    while i < |entries|
      invariant 0 <= i <= |entries|
      invariant maxNx == MaxOf(img.nx, Widths(entries)[..i])
      invariant maxNy == MaxOf(img.ny, Heights(entries)[..i])
    {
      var a := entries[i].nx;
      var b := entries[i].ny;
      assert Widths(entries)[..i + 1][..i] == Widths(entries)[..i];
      assert Heights(entries)[..i + 1][..i] == Heights(entries)[..i];
      maxNx := Max(maxNx, a);
      maxNy := Max(maxNy, b);
      i := i + 1;
    }
    assert Widths(entries)[..i] == Widths(entries);
    assert Heights(entries)[..i] == Heights(entries);
  }

  /** Bytes requested for the embedding buffer of one image with the given tiles. */
  function EmbdBytes(clip: Clip, img: ImageU8, entries: seq<ImageF32>): nat {
    if clip.isMrope then
      var e := Extent(img, entries);
      clip.embdNbytesByImg(e.0, e.1)
    else
      clip.embdNbytes * NumMaxPatches(clip.isMinicpmv, clip.isGlm)
  }

  /** Floats in that buffer (`sizeof(float)` is 4). */
  function EmbdFloats(clip: Clip, img: ImageU8, entries: seq<ImageF32>): nat {
    EmbdBytes(clip, img, entries) / 4
  }

  function First(entries: seq<ImageF32>): Option<ImageF32> {
    if |entries| == 0 then None else Some(entries[0])
  }

  /** How building one image embedding ends. */
  datatype Outcome =
    | PreprocessFailed
    | AllocFailed
    | EncodeFailed
    | Encoded(nImgPos: int, nx: int, ny: int, floats: nat)

  /** The outcome, given whether the allocator grants the buffer. */
  function Expected(clip: Clip, img: ImageU8, allocOk: bool): Outcome {
    match clip.preprocess(img)
    case None => PreprocessFailed
    case Some(entries) =>
      if !allocOk then AllocFailed
      else if !clip.encode(First(entries)) then EncodeFailed
      else
        var t := clip.outputTokens(First(entries));
        Encoded(t.0, t.1, t.2, EmbdFloats(clip, img, entries))
  }

  /** The caller's output slots: `*image_embd_out`, `*n_img_pos_out`, `*nx_out`, `*ny_out`. */
  datatype EmbedOut = EmbedOut(embd: array?<real>, nImgPos: int, nx: int, ny: int)

  /**
   * Builds the embedding of one image. Every failure leaves the caller's output
   * slots as they were and leaks nothing: a preprocessing failure happens before any
   * allocation, an allocation failure has nothing to free, and an encoding failure
   * frees the buffer it allocated. On success the caller receives the buffer, which
   * it then owns, and the token counts of the first tile.
   */
  method MakeWithClipImg(clip: Clip, heap: Heap<real>, img: ImageU8, prev: EmbedOut)
    returns (ok: bool, out: EmbedOut)
    requires heap.Valid()
    modifies heap
    ensures heap.Valid()
    ensures var e := Expected(clip, img, heap.oracle(old(heap.attempts)));
      && (ok <==> e.Encoded?)
      && (!ok ==> out == prev && heap.live == old(heap.live))
      && (e.PreprocessFailed? ==> heap.attempts == old(heap.attempts) && heap.freed == old(heap.freed))
      && (e.AllocFailed? ==> heap.attempts == old(heap.attempts) + 1 && heap.freed == old(heap.freed))
      && (e.EncodeFailed? ==>
            heap.attempts == old(heap.attempts) + 1 &&
            |heap.freed| == |old(heap.freed)| + 1 &&
            heap.freed[..|old(heap.freed)|] == old(heap.freed) &&
            fresh(heap.freed[|old(heap.freed)|]))
      && (e.Encoded? ==>
            heap.attempts == old(heap.attempts) + 1 && heap.freed == old(heap.freed) &&
            out.embd != null && fresh(out.embd) && out.embd.Length == e.floats &&
            heap.live == old(heap.live) + {out.embd} &&
            out.nImgPos == e.nImgPos && out.nx == e.nx && out.ny == e.ny)
  {
    var numMaxPatches := 11;
    if clip.isMinicpmv {
      numMaxPatches := 10;
    }
    if clip.isGlm {
      numMaxPatches := 1;
    }
    assert numMaxPatches == NumMaxPatches(clip.isMinicpmv, clip.isGlm);
    ghost var allocOk := heap.oracle(heap.attempts);
    var pre := clip.preprocess(img);
    if pre.None? {
      return false, prev;
    }
    var entries := pre.value;
    var bytes: nat;
    if clip.isMrope {
      var maxNx, maxNy := MaxDims(img, entries);
      bytes := clip.embdNbytesByImg(maxNx, maxNy);
    } else {
      bytes := clip.embdNbytes * numMaxPatches;
    }
    assert bytes == EmbdBytes(clip, img, entries);
    var imageEmbd := heap.Malloc(bytes / 4);
    if imageEmbd == null {
      return false, prev;
    }
    var first := First(entries);
    var tokens := clip.outputTokens(first);
    var encoded := clip.encode(first);
    if !encoded {
      heap.Free(imageEmbd);
      return false, prev;
    }
    assert Expected(clip, img, allocOk) == Encoded(tokens.0, tokens.1, tokens.2, bytes / 4);
    out := EmbedOut(imageEmbd, tokens.0, tokens.1, tokens.2);
    ok := true;
  }

  /** The batch record handed to the language model; its arrays alias the vectors of
      the `EmbdBatch` that built it. `token` is NULL: the batch carries embeddings. */
  datatype LlamaBatch = LlamaBatch(
    nTokens: int,
    token: array?<int>,
    embd: array?<real>,
    pos: array<int>,
    nSeqId: array<int>,
    seqId: array<array?<int>>,
    logits: array<bool>)

  /** The owner of a batch's per-token vectors. */
  class EmbdBatch {
    const pos: array<int>
    const nSeqId: array<int>
    const seqId0: array<int>
    const seqIds: array<array?<int>>
    const logits: array<bool>
    const batch: LlamaBatch

    /** The batch describes `n` embedding tokens at consecutive positions from `pos0`,
        each in the single sequence `seqId` and none asking for logits; the sequence
        pointer array carries one extra, NULL slot as terminator. */
    ghost predicate Describes(n: int, pos0: int, seqId: int)
      reads this, pos, nSeqId, seqId0, seqIds, logits
    {
      && pos.Length == n && nSeqId.Length == n && logits.Length == n
      && seqIds.Length == n + 1 && seqIds[n] == null
      && seqId0.Length == 1 && seqId0[0] == seqId
      && (forall i :: 0 <= i < n ==> pos[i] == pos0 + i)
      && (forall i :: 0 <= i < n ==> nSeqId[i] == 1)
      && (forall i :: 0 <= i < n ==> seqIds[i] == seqId0)
      && (forall i :: 0 <= i < n ==> !logits[i])
    }

    /** Every position written is an `int32` (no signed overflow of `pos_0 + i`). */
    lemma PositionsFit(n: int, pos0: int, seqId: int)
      requires Describes(n, pos0, seqId)
      requires IsInt32(pos0) && (n > 0 ==> IsInt32(pos0 + n - 1))
      ensures forall i :: 0 <= i < n ==> IsInt32(pos[i])
    {
    }

    constructor (embd: array?<real>, nTokens: int, pos0: int, seqId: int)
      requires 0 <= nTokens < Int32Max
      requires IsInt32(pos0) && (nTokens > 0 ==> IsInt32(pos0 + nTokens - 1))
      requires IsInt32(seqId)
      ensures fresh(pos) && fresh(nSeqId) && fresh(seqId0) && fresh(seqIds) && fresh(logits)
      ensures batch == LlamaBatch(nTokens, null, embd, pos, nSeqId, seqIds, logits)
      ensures Describes(nTokens, pos0, seqId)
    {
      var p := new int[nTokens];
      var ns := new int[nTokens];
      var ids := new array?<int>[nTokens + 1](_ => null);
      var lg := new bool[nTokens];
      var s0 := new int[1];
      s0[0] := seqId;
      ids[nTokens] := null;
      pos, nSeqId, seqIds, logits, seqId0 := p, ns, ids, lg, s0;
      batch := LlamaBatch(nTokens, null, embd, p, ns, ids, lg);
      new;
      for i := 0 to nTokens
        invariant seqId0[0] == seqId && seqIds[nTokens] == null
        invariant forall k :: 0 <= k < i ==> pos[k] == pos0 + k
        invariant forall k :: 0 <= k < i ==> nSeqId[k] == 1
        invariant forall k :: 0 <= k < i ==> seqIds[k] == seqId0
        invariant forall k :: 0 <= k < i ==> !logits[k]
      {
        batch.pos[i] := pos0 + i;
        batch.nSeqId[i] := 1;
        batch.seqId[i] := seqId0;
        batch.logits[i] := false;
      }
    }
  }
}
