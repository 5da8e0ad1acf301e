/**
 * The framing decision of the image-processing route: choose the subject among
 * the detected faces, compute the square crop around it (or a centred fallback
 * when there is none), and pick the output size requested by the client.
 */
module Framing {
  import opened Wrappers

  /** One detection, already mapped into source-image pixels. */
  datatype FaceRect = FaceRect(x: int, y: int, width: int, height: int, confidence: real)

  /** A square crop `size` x `size` whose top-left corner is (`left`, `top`). */
  datatype CropRegion = CropRegion(left: int, top: int, size: int)

  /** Top padding above the head, in pixels of a 1000-pixel output. */
  const TopPaddingPx := 20

  /** Output sizes the client may ask for, and the size used otherwise. */
  const DefaultSize := 500
  const LargeSize := 1000

  // ---------------------------------------------------------------------------
  // Arithmetic helpers

  /** JavaScript's `Math.round`: the nearest integer, halves rounded up. */
  function Round(r: real): (n: int)
    ensures r - 0.5 < n as real <= r + 0.5
  {
    (r + 0.5).Floor
  }

  lemma RoundOfInt(n: int)
    ensures Round(n as real) == n
  {
  }

  lemma RoundMonotone(a: real, b: real)
    requires a <= b
    ensures Round(a) <= Round(b)
  {
  }

  function Min(a: int, b: int): int { if a <= b then a else b }
  function Max(a: int, b: int): int { if a >= b then a else b }

  /** `Math.min(a, b, c)`. */
  function Min3(a: int, b: int, c: int): int { Min(Min(a, b), c) }

  /** `v` moved into `[lo, hi]`. */
  function ClampInt(v: int, lo: int, hi: int): int
    requires lo <= hi
  {
    if v < lo then lo else if v > hi then hi else v
  }

  /** The crop lies inside a `w` x `h` image. */
  ghost predicate Contained(w: int, h: int, c: CropRegion)
  {
    0 <= c.left && 0 <= c.top && 0 <= c.size && c.left + c.size <= w && c.top + c.size <= h
  }

  // ---------------------------------------------------------------------------
  // Face selection

  /** Vertical centre of a detection. */
  function CentreY(f: FaceRect): real
  {
    f.y as real + f.height as real / 2.0
  }

  /** Faces high in the frame are preferred: 3.0 in the upper half, 1.0 down to 65%, 0.05 below. */
  function PositionWeight(f: FaceRect, imgHeight: int): (w: real)
    ensures w == 3.0 <==> CentreY(f) < imgHeight as real * 0.5
    ensures w == 1.0 <==> imgHeight as real * 0.5 <= CentreY(f) < imgHeight as real * 0.65
    ensures w == 0.05 <==> imgHeight as real * 0.5 <= CentreY(f) && imgHeight as real * 0.65 <= CentreY(f)
  {
    var cy := CentreY(f);
    if cy < imgHeight as real * 0.5 then 3.0
    else if cy < imgHeight as real * 0.65 then 1.0
    else 0.05
  }

  /** A face lower in the frame never has a larger weight. */
  lemma PositionWeightNonIncreasing(f: FaceRect, g: FaceRect, imgHeight: int)
    requires imgHeight >= 0
    requires CentreY(f) <= CentreY(g)
    ensures PositionWeight(f, imgHeight) >= PositionWeight(g, imgHeight)
  {
  }

  function Score(f: FaceRect, imgHeight: int): (s: real)
    ensures f.confidence >= 0.0 ==> 0.05 * f.confidence <= s <= 3.0 * f.confidence
  {
    f.confidence * PositionWeight(f, imgHeight)
  }

  /** The running best score starts at -1, so scores at or below -1 never replace the first face. */
  function Clipped(s: real): real
  {
    if s > -1.0 then s else -1.0
  }

  /**
   * `k` is the face the selector ends with: the first index whose (clipped)
   * score is maximal, every earlier face scoring strictly less.
   */
  ghost predicate IsFirstBest(faces: seq<FaceRect>, imgHeight: int, k: int)
  {
    && 0 <= k < |faces|
    && (forall j :: 0 <= j < |faces| ==> Clipped(Score(faces[j], imgHeight)) <= Clipped(Score(faces[k], imgHeight)))
    && (forall j :: 0 <= j < k ==> Clipped(Score(faces[j], imgHeight)) < Clipped(Score(faces[k], imgHeight)))
  }

  /** `selectBestFace`: none exactly when there is no face, otherwise the first best-scoring one. */
  method SelectBestFace(faces: seq<FaceRect>, imgHeight: int) returns (best: Option<FaceRect>)
    ensures best.None? <==> |faces| == 0
    ensures best.Some? ==> exists k :: IsFirstBest(faces, imgHeight, k) && faces[k] == best.value
  {
    if |faces| == 0 {
      return None;
    }
    var bestFace := faces[0];
    var bestScore := -1.0;
    ghost var bestIdx := 0;
    for i := 0 to |faces|
      invariant 0 <= bestIdx < |faces| && bestFace == faces[bestIdx]
      invariant (i == 0 && bestIdx == 0 && bestScore == -1.0)
             || (bestIdx < i && bestScore == Clipped(Score(faces[bestIdx], imgHeight)))
      invariant forall j :: 0 <= j < i ==> Clipped(Score(faces[j], imgHeight)) <= bestScore
      invariant forall j :: 0 <= j < bestIdx ==> Clipped(Score(faces[j], imgHeight)) < bestScore
    {
      var score := Score(faces[i], imgHeight);
      if score > bestScore {
        bestScore := score;
        bestFace := faces[i];
        bestIdx := i;
      }
    }
    assert IsFirstBest(faces, imgHeight, bestIdx);
    return Some(bestFace);
  }

  /** With non-negative confidences (the detector's are in [0, 1]) the clipping is invisible. */
  lemma FirstBestWithNonNegativeConfidence(faces: seq<FaceRect>, imgHeight: int, k: int)
    requires forall j :: 0 <= j < |faces| ==> faces[j].confidence >= 0.0
    requires IsFirstBest(faces, imgHeight, k)
    ensures forall j :: 0 <= j < |faces| ==> Score(faces[j], imgHeight) <= Score(faces[k], imgHeight)
    ensures forall j :: 0 <= j < k ==> Score(faces[j], imgHeight) < Score(faces[k], imgHeight)
  {
    assert forall j :: 0 <= j < |faces| ==> Score(faces[j], imgHeight) >= 0.0;
  }

  /** Two faces that score the same: the earlier one is chosen. */
  lemma TieGoesToEarlierFace(f: FaceRect, g: FaceRect, imgHeight: int, k: int)
    requires Score(f, imgHeight) == Score(g, imgHeight)
    requires IsFirstBest([f, g], imgHeight, k)
    ensures k == 0
  {
    var faces := [f, g];
    assert faces[0] == f && faces[1] == g;
  }

  /**
   * Position dominates confidence: a face centred at 30% of the height with
   * confidence 0.71 beats one centred at 90% with confidence 0.95.
   */
  lemma UpperFaceBeatsLowerFace(low: FaceRect, high: FaceRect, imgHeight: int, k: int)
    requires imgHeight > 0
    requires low.confidence == 0.95 && CentreY(low) == 0.9 * imgHeight as real
    requires high.confidence == 0.71 && CentreY(high) == 0.3 * imgHeight as real
    requires IsFirstBest([low, high], imgHeight, k)
    ensures k == 1
  {
    var faces := [low, high];
    assert faces[0] == low && faces[1] == high;
    assert Score(low, imgHeight) == 0.95 * 0.05;
    assert Score(high, imgHeight) == 0.71 * 3.0;
  }

  // ---------------------------------------------------------------------------
  // Crop geometry

  /** Top of the head: the box top raised by 35% of the face height. */
  function HeadTop(f: FaceRect): int
  {
    f.y - Round(0.35 * f.height as real)
  }

  /** Where the crop's top edge goes before clamping: `TopPaddingPx`/1000 of the crop above the head. */
  function UnclampedTop(f: FaceRect, size: int): int
  {
    HeadTop(f) - Round((TopPaddingPx as real / 1000.0) * size as real)
  }

  /** Where the crop's left edge goes before clamping: centred on the face. */
  function UnclampedLeft(f: FaceRect, size: int): real
  {
    f.x as real + f.width as real / 2.0 - size as real / 2.0
  }

  /**
   * The crop side: 2.2 face heights, never more than the image's short side,
   * and at least 1.6 face heights whenever that fits.
   */
  ghost predicate CropSizeRule(imgWidth: int, imgHeight: int, f: FaceRect, size: int)
  {
    var short := Min(imgWidth, imgHeight);
    var minSize := Round(f.height as real * 1.6);
    && size <= imgWidth && size <= imgHeight
    && (minSize <= short ==> size >= minSize)
    && (f.height >= 0 ==>
          size == if minSize <= short then Min(Round(f.height as real * 2.2), short) else short)
  }

  /**
   * The crop sits inside the image, at the unclamped position moved just
   * enough to fit (the left edge rounded first).
   */
  ghost predicate PlacedAroundFace(imgWidth: int, imgHeight: int, f: FaceRect, c: CropRegion)
  {
    && c.left >= 0 && c.top >= 0
    && (imgWidth >= 0 && imgHeight >= 0 && f.height >= 0 ==>
          && Contained(imgWidth, imgHeight, c)
          && c.top == ClampInt(UnclampedTop(f, c.size), 0, imgHeight - c.size)
          && c.left == ClampInt(Round(UnclampedLeft(f, c.size)), 0, imgWidth - c.size))
  }

  /** Rounding the clamped real equals clamping the rounded value, for integer bounds. */
  lemma RoundOfClamped(v: real, hi: int)
    requires 0 <= hi
    ensures var l1 := if v < 0.0 then 0.0 else v;
            var l2 := if l1 > hi as real then hi as real else l1;
            Max(0, Round(l2)) == ClampInt(Round(v), 0, hi)
  {
    RoundOfInt(0);
    RoundOfInt(hi);
    if v < 0.0 {
      RoundMonotone(v, 0.0);
    } else if v > hi as real {
      RoundMonotone(hi as real, v);
    } else {
      RoundMonotone(0.0, v);
      RoundMonotone(v, hi as real);
    }
  }

  /** `headshotCrop`: the square around the chosen face, clamped into the image. */
  method HeadshotCrop(imgWidth: int, imgHeight: int, face: FaceRect) returns (crop: CropRegion)
    ensures CropSizeRule(imgWidth, imgHeight, face, crop.size)
    ensures PlacedAroundFace(imgWidth, imgHeight, face, crop)
  {
    var cropSize := CropSide(imgWidth, imgHeight, face);
    crop := PlaceCrop(imgWidth, imgHeight, face, cropSize);
  }

  /** The side of the head-and-shoulders square: 2.2 face heights, at least 1.6, within the image. */
  method CropSide(imgWidth: int, imgHeight: int, face: FaceRect) returns (cropSize: int)
    ensures CropSizeRule(imgWidth, imgHeight, face, cropSize)
    ensures imgWidth >= 0 && imgHeight >= 0 && face.height >= 0 ==> cropSize >= 0
  {
    cropSize := Round(face.height as real * 2.2);
    cropSize := Min3(cropSize, imgWidth, imgHeight);
    cropSize := Max(cropSize, Round(face.height as real * 1.6));
    cropSize := Min3(cropSize, imgWidth, imgHeight);
    if face.height >= 0 {
      RoundMonotone(face.height as real * 1.6, face.height as real * 2.2);
      RoundMonotone(0.0, face.height as real * 1.6);
      RoundOfInt(0);
    }
  }

  /** Where the square of side `cropSize` goes: centred on the face, padded above the head, clamped. */
  method PlaceCrop(imgWidth: int, imgHeight: int, face: FaceRect, cropSize: int) returns (crop: CropRegion)
    requires cropSize <= imgWidth && cropSize <= imgHeight
    requires imgWidth >= 0 && imgHeight >= 0 && face.height >= 0 ==> cropSize >= 0
    ensures crop.size == cropSize
    ensures PlacedAroundFace(imgWidth, imgHeight, face, crop)
  {
    var faceCx := face.x as real + face.width as real / 2.0;
    var headTop := face.y - Round(0.35 * face.height as real);
    var paddingOrig := Round((TopPaddingPx as real / 1000.0) * cropSize as real);

    var top := headTop - paddingOrig;
    var left := faceCx - cropSize as real / 2.0;

    if left < 0.0 { left := 0.0; }
    if top < 0 { top := 0; }
    if left + cropSize as real > imgWidth as real { left := imgWidth as real - cropSize as real; }
    if top + cropSize > imgHeight { top := imgHeight - cropSize; }
    var roundedLeft := Max(0, Round(left));
    RoundOfInt(top);
    top := Max(0, Round(top as real));

    if imgWidth >= 0 && imgHeight >= 0 && face.height >= 0 {
      RoundOfClamped(UnclampedLeft(face, cropSize), imgWidth - cropSize);
    }
    crop := CropRegion(roundedLeft, top, cropSize);
  }

  /** Twice a half rounded up: `n` itself or `n + 1`. */
  lemma RoundHalf(n: int)
    ensures n <= 2 * Round(n as real / 2.0) <= n + 1
  {
  }

  /** `fallbackCrop`: the largest square, horizontally centred, touching the top edge. */
  function FallbackCrop(imgWidth: int, imgHeight: int): (c: CropRegion)
    ensures c.top == 0 && c.size == Min(imgWidth, imgHeight)
    ensures 0 <= 2 * c.left + c.size - imgWidth <= 1
    ensures imgWidth >= 0 && imgHeight >= 0 ==> Contained(imgWidth, imgHeight, c)
  {
    var cropSize := Min(imgWidth, imgHeight);
    RoundHalf(imgWidth - cropSize);
    CropRegion(Round((imgWidth - cropSize) as real / 2.0), 0, cropSize)
  }

  lemma FallbackCropLandscape()
    ensures FallbackCrop(1200, 800) == CropRegion(200, 0, 800)
  {
  }

  /**
   * The framing step of `processImage`: select a face and crop around it,
   * or fall back to the centred square when none was detected.
   */
  method FrameImage(imgWidth: int, imgHeight: int, faces: seq<FaceRect>) returns (crop: CropRegion)
    ensures |faces| == 0 ==> crop == FallbackCrop(imgWidth, imgHeight)
    ensures |faces| > 0 ==> exists k :: && IsFirstBest(faces, imgHeight, k)
                                        && CropSizeRule(imgWidth, imgHeight, faces[k], crop.size)
                                        && PlacedAroundFace(imgWidth, imgHeight, faces[k], crop)
    ensures imgWidth >= 0 && imgHeight >= 0 && (forall j :: 0 <= j < |faces| ==> faces[j].height >= 0)
            ==> Contained(imgWidth, imgHeight, crop)
  {
    var face := SelectBestFace(faces, imgHeight);
    if face.Some? {
      crop := HeadshotCrop(imgWidth, imgHeight, face.value);
    } else {
      crop := FallbackCrop(imgWidth, imgHeight);
    }
  }

  // ---------------------------------------------------------------------------
  // Requested output size

  /** The value of JavaScript's `Number(...)` on the form field: NaN or a number. */
  datatype NumberValue = NaN | Num(value: real)

  /** `Number(size) || DEFAULT_SIZE`, then kept only if it is one of the valid sizes. */
  function TargetSize(param: NumberValue): (t: int)
    ensures t == DefaultSize || t == LargeSize
    ensures t == LargeSize <==> param == Num(LargeSize as real)
  {
    var sizeParam := if param == NaN || param == Num(0.0) then Num(DefaultSize as real) else param;
    if sizeParam == Num(DefaultSize as real) || sizeParam == Num(LargeSize as real)
    then sizeParam.value.Floor
    else DefaultSize
  }
}
