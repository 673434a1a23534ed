/**
 * Model of the frame conversion in `VideoRecorder.write` (video_recorder.py):
 * the shape check, the conversion of non-uint8 frames to bytes, and the
 * compositing of RGBA frames onto black. The bytes it yields are what the
 * source then writes to the encoder's pipe.
 */
module VideoRecorder {

  /** The element type of a frame: uint8, or any other (float) type. */
  datatype DType = Uint8 | Float

  /**
   * A numpy frame: its shape, its element type and, when it is
   * three-dimensional, its values indexed [row][column][channel].
   */
  datatype Frame = Frame(shape: seq<nat>, dtype: DType, pixels: seq<seq<seq<real>>>)

  /** An output frame of bytes, indexed [row][column][channel]. */
  type Image = seq<seq<seq<int>>>

  datatype WriteError = ValueError(shape: seq<nat>)

  datatype Result<T> = Ok(value: T) | Err(error: WriteError)

  /** v is a value a uint8 array can hold. */
  predicate IsByte(v: real)
  {
    0.0 <= v <= 255.0 && v.Floor as real == v
  }

  predicate HasShape(px: seq<seq<seq<real>>>, h: nat, w: nat, ch: nat)
  {
    |px| == h &&
    forall i :: 0 <= i < h ==>
      |px[i]| == w && forall j :: 0 <= j < w ==> |px[i][j]| == ch
  }

  predicate IsImage(img: Image, h: nat, w: nat, ch: nat)
  {
    |img| == h &&
    forall i :: 0 <= i < h ==>
      |img[i]| == w && forall j :: 0 <= j < w ==> |img[i][j]| == ch
  }

  /** Every value of the image is a byte. */
  predicate IsByteImage(img: Image)
  {
    forall i, j, k :: 0 <= i < |img| && 0 <= j < |img[i]| && 0 <= k < |img[i][j]| ==>
      0 <= img[i][j][k] <= 255
  }

  /**
   * What numpy guarantees of an array: a three-dimensional frame has values
   * of its shape, and a uint8 one holds bytes only. The values of a frame of
   * any other rank are never looked at.
   */
  predicate WellFormed(fr: Frame)
  {
    |fr.shape| == 3 ==>
      HasShape(fr.pixels, fr.shape[0], fr.shape[1], fr.shape[2]) &&
      (fr.dtype == Uint8 ==>
        forall i, j, k :: 0 <= i < fr.shape[0] && 0 <= j < fr.shape[1] && 0 <= k < fr.shape[2] ==>
          IsByte(fr.pixels[i][j][k]))
  }

  /** The check at line 42: a 3-dimensional frame with 3 or 4 channels. */
  predicate IsRgbShape(shape: seq<nat>)
  {
    |shape| == 3 && (shape[2] == 3 || shape[2] == 4)
  }

  /** `np.clip(v, 0, 1)`. */
  function Clip01(v: real): (c: real)
    ensures 0.0 <= c <= 1.0
    ensures 0.0 <= v <= 1.0 ==> c == v
    ensures v < 0.0 ==> c == 0.0
    ensures v > 1.0 ==> c == 1.0
  {
    if v < 0.0 then 0.0 else if v > 1.0 then 1.0 else v
  }

  /**
   * `(np.clip(v, 0, 1) * 255).astype(np.uint8)`: values at or below 0 map to
   * 0, values at or above 1 map to 255, and the rest to the whole part of
   * 255 v. A float frame in [0, 255] is therefore saturated.
   */
  function ToByte(v: real): (b: int)
    ensures 0 <= b <= 255
    ensures v <= 0.0 ==> b == 0
    ensures v >= 1.0 ==> b == 255
    ensures 0.0 <= v <= 1.0 ==> b as real <= 255.0 * v < b as real + 1.0
  {
    (Clip01(v) * 255.0).Floor
  }

  /** One element as a byte: a uint8 value as it is, any other value through ToByte. */
  function ElementByte(v: real, dtype: DType): (b: int)
    requires dtype == Uint8 ==> IsByte(v)
    ensures 0 <= b <= 255
    ensures dtype == Uint8 ==> b as real == v
    ensures dtype == Float ==> b == ToByte(v)
  {
    if dtype == Uint8 then v.Floor else ToByte(v)
  }

  /** Lines 44-46: the frame as bytes, converting it when it is not uint8. */
  function AsBytes(px: seq<seq<seq<real>>>, dtype: DType, h: nat, w: nat, ch: nat): (img: Image)
    requires HasShape(px, h, w, ch)
    requires dtype == Uint8 ==>
      forall i, j, k :: 0 <= i < h && 0 <= j < w && 0 <= k < ch ==> IsByte(px[i][j][k])
    ensures IsImage(img, h, w, ch) && IsByteImage(img)
    ensures forall i, j, k :: 0 <= i < h && 0 <= j < w && 0 <= k < ch ==>
      img[i][j][k] == ElementByte(px[i][j][k], dtype)
  {
    seq(h, i requires 0 <= i < h =>
      seq(w, j requires 0 <= j < w =>
        seq(ch, k requires 0 <= k < ch => ElementByte(px[i][j][k], dtype))))
  }

  /**
   * Lines 50-52 for one RGBA pixel of bytes: `trunc(rgb * a / 255)` per
   * colour channel, that is the pixel composited onto a black background.
   * Compositing only darkens; alpha 255 keeps the colour, alpha 0 gives black.
   */
  function CompositePixel(px: seq<int>): (out: seq<int>)
    requires |px| == 4 && forall k :: 0 <= k < 4 ==> 0 <= px[k] <= 255
    ensures |out| == 3
    ensures forall k :: 0 <= k < 3 ==> 0 <= out[k] <= px[k]
    ensures forall k :: 0 <= k < 3 ==>
      out[k] as real <= px[k] as real * (px[3] as real / 255.0) < out[k] as real + 1.0
    ensures px[3] == 255 ==> out == px[..3]
    ensures px[3] == 0 ==> out == [0, 0, 0]
  {
    var alpha := px[3] as real / 255.0;
    assert 0.0 <= alpha <= 1.0;
    var out := seq(3, k requires 0 <= k < 3 => Blend(px[k], alpha));
    assert forall k :: 0 <= k < 3 ==> out[k] == Blend(px[k], alpha);
    out
  }

  /** `(c * alpha + (1 - alpha) * 0).astype(np.uint8)` for one colour byte c. */
  function Blend(c: int, alpha: real): (b: int)
    requires 0 <= c <= 255 && 0.0 <= alpha <= 1.0
    ensures 0 <= b <= c
    ensures alpha == 1.0 ==> b == c
    ensures alpha == 0.0 ==> b == 0
    ensures b as real <= c as real * alpha < b as real + 1.0
  {
    var v := c as real * alpha + (1.0 - alpha) * 0.0;
    BlendBounds(c as real, alpha, v);
    FloorWithin(v, c);
    v.Floor
  }

  /** Blending a colour over black scales it by alpha, which stays within [0, c]. */
  lemma BlendBounds(c: real, alpha: real, v: real)
    requires 0.0 <= c && 0.0 <= alpha <= 1.0
    requires v == c * alpha + (1.0 - alpha) * 0.0
    ensures v == c * alpha && 0.0 <= v <= c
    ensures alpha == 1.0 ==> v == c
    ensures alpha == 0.0 ==> v == 0.0
  {
    assert (1.0 - alpha) * 0.0 == 0.0;
    NonNegProduct(c, alpha);
    NonNegProduct(c, 1.0 - alpha);
    assert c * alpha + c * (1.0 - alpha) == c;
  }

  lemma NonNegProduct(x: real, y: real)
    requires 0.0 <= x && 0.0 <= y
    ensures 0.0 <= x * y
  {
  }

  /** The whole part of a value in [0, c] lies in [0, c]. */
  lemma FloorWithin(v: real, c: int)
    requires 0.0 <= v <= c as real
    ensures 0 <= v.Floor <= c
    ensures v.Floor as real <= v < v.Floor as real + 1.0
    ensures v == c as real ==> v.Floor == c
  {
  }

  /** Lines 49-52 over a whole RGBA frame of bytes. */
  function Composite(img: Image, h: nat, w: nat): (out: Image)
    requires IsImage(img, h, w, 4) && IsByteImage(img)
    ensures IsImage(out, h, w, 3) && IsByteImage(out)
    ensures forall i, j :: 0 <= i < h && 0 <= j < w ==> out[i][j] == CompositePixel(img[i][j])
  {
    seq(h, i requires 0 <= i < h =>
      seq(w, j requires 0 <= j < w => CompositePixel(img[i][j])))
  }

  /**
   * `VideoRecorder.write` up to the pipe write: a `ValueError` for a frame
   * that is not (H, W, 3) or (H, W, 4), otherwise the (H, W, 3) bytes that
   * go to the encoder.
   */
  function Write(fr: Frame): (r: Result<Image>)
    requires WellFormed(fr)
    ensures r.Err? <==> !IsRgbShape(fr.shape)
    ensures r.Err? ==> r.error == ValueError(fr.shape)
    ensures r.Ok? ==> IsImage(r.value, fr.shape[0], fr.shape[1], 3) && IsByteImage(r.value)
  {
    if !IsRgbShape(fr.shape) then Err(ValueError(fr.shape))
    else
      var h, w, ch := fr.shape[0], fr.shape[1], fr.shape[2];
      var bytes := AsBytes(fr.pixels, fr.dtype, h, w, ch);
      if ch == 4 then Ok(Composite(bytes, h, w)) else Ok(bytes)
  }

  /** A uint8 RGB frame is written unchanged. */
  lemma WriteUint8RgbUnchanged(fr: Frame)
    requires WellFormed(fr) && fr.dtype == Uint8 && |fr.shape| == 3 && fr.shape[2] == 3
    ensures Write(fr).Ok?
    ensures forall i, j, k :: 0 <= i < fr.shape[0] && 0 <= j < fr.shape[1] && 0 <= k < 3 ==>
      Write(fr).value[i][j][k] as real == fr.pixels[i][j][k]
  {
    var r := Write(fr);
    forall i, j, k | 0 <= i < fr.shape[0] && 0 <= j < fr.shape[1] && 0 <= k < 3
      ensures r.value[i][j][k] as real == fr.pixels[i][j][k]
    {
      assert IsByte(fr.pixels[i][j][k]);
    }
  }

  /**
   * A float RGB frame is clipped to [0, 1] and scaled to bytes: values at or
   * below 0 become 0 and values at or above 1 (so every value of a frame in
   * [0, 255] from 1 up) become 255.
   */
  lemma WriteFloatRgb(fr: Frame, i: nat, j: nat, k: nat)
    requires WellFormed(fr) && fr.dtype == Float && |fr.shape| == 3 && fr.shape[2] == 3
    requires i < fr.shape[0] && j < fr.shape[1] && k < 3
    ensures Write(fr).Ok?
    ensures Write(fr).value[i][j][k] == ToByte(fr.pixels[i][j][k])
    ensures fr.pixels[i][j][k] <= 0.0 ==> Write(fr).value[i][j][k] == 0
    ensures fr.pixels[i][j][k] >= 1.0 ==> Write(fr).value[i][j][k] == 255
  {
  }

  /**
   * An RGBA frame becomes its bytes composited onto black: each colour byte
   * c with alpha a becomes trunc(c * a / 255), which is at most c, is c when
   * a is 255 and 0 when a is 0.
   */
  lemma WriteRgbaComposites(fr: Frame, i: nat, j: nat, k: nat)
    requires WellFormed(fr) && |fr.shape| == 3 && fr.shape[2] == 4
    requires i < fr.shape[0] && j < fr.shape[1] && k < 3
    ensures Write(fr).Ok?
    ensures var b := AsBytes(fr.pixels, fr.dtype, fr.shape[0], fr.shape[1], 4)[i][j];
      var out := Write(fr).value[i][j][k];
      out as real <= b[k] as real * (b[3] as real / 255.0) < out as real + 1.0 &&
      0 <= out <= b[k] &&
      (b[3] == 255 ==> out == b[k]) &&
      (b[3] == 0 ==> out == 0)
  {
    var b := AsBytes(fr.pixels, fr.dtype, fr.shape[0], fr.shape[1], 4)[i][j];
    assert Write(fr).value[i][j] == CompositePixel(b);
    assert CompositePixel(b)[k] == Blend(b[k], b[3] as real / 255.0);
  }
}
