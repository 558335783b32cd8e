/** `generate_colours` and `convert_to_RGB` of oommf_tools.py: each
    magnetisation vector becomes an HLS colour whose hue is its in-plane
    angle wrapped into [0, 2*pi), whose lightness is its z component mapped
    from [-1, 1] onto [0, 1], and whose saturation is one; the rgb model
    converts each colour with `colorsys.hls_to_rgb`. */
module Colours {
  import opened Wrappers
  import opened Errors

  /** `np.pi` */
  const Pi: real := 3.141592653589793

  type Triple = (real, real, real)

  /** The text of the exception for an unknown colour model. */
  const InvalidModelMessage: string := "Specify a valid colour model: rgb or hls"

  /** The in-plane angle as `np.arctan2` returns it, brought into [0, 2*pi)
      by adding 2*pi to a negative angle. */
  function WrapHue(a: real): real
  {
    if a < 0.0 then a + 2.0 * Pi else a
  }

  /** For an angle in the range of `arctan2`, [-pi, pi], the hue lies in
      [0, 2*pi) and differs from the angle by a whole turn or not at all. */
  lemma WrapHueRange(a: real)
    requires -Pi <= a <= Pi
    ensures 0.0 <= WrapHue(a) < 2.0 * Pi
    ensures WrapHue(a) == a || WrapHue(a) == a + 2.0 * Pi
  {
  }

  /** The hue is the one angle in [0, 2*pi) a whole number of turns away
      from the input angle. */
  lemma WrapHueUnique(a: real, t: real, k: int)
    requires -Pi <= a <= Pi
    requires 0.0 <= t < 2.0 * Pi && t == a + k as real * (2.0 * Pi)
    ensures t == WrapHue(a)
  {
  }

  /** `0.5 * (vz + 1)` */
  function Lightness(vz: real): real
  {
    0.5 * (vz + 1.0)
  }

  /** The lightness lies in [0, 1] exactly when the z component lies in
      [-1, 1], and the z component is recovered from it. */
  lemma LightnessRange(vz: real)
    ensures 0.0 <= Lightness(vz) <= 1.0 <==> -1.0 <= vz <= 1.0
    ensures 2.0 * Lightness(vz) - 1.0 == vz
  {
  }

  /** Row `v` of the `hls` array: hue from `arctan2(vy, vx)`, lightness
      from `vz`, saturation one from `np.ones_like`. */
  function HlsRow(v: Triple, atan2: (real, real) -> real): Triple
  {
    (WrapHue(atan2(v.1, v.0)), Lightness(v.2), 1.0)
  }

  /** `convert_to_RGB`: `hls_to_rgb` on the hue as a fraction of a turn. */
  function ConvertToRgb(c: Triple, hlsToRgb: (real, real, real) -> Triple): Triple
  {
    hlsToRgb(c.0 / (2.0 * Pi), c.1, c.2)
  }

  /** `generate_colours(field_data, colour_model='rgb')`: the `hls` array,
      or its rows converted to rgb; another model raises, and so does the
      row-wise conversion of a field with no rows. As in the source, the
      model is rgb unless another one is given. */
  function GenerateColours(field: seq<Triple>, atan2: (real, real) -> real,
                           hlsToRgb: (real, real, real) -> Triple,
                           model: string := "rgb"): (r: Result<seq<Triple>, Error>)
    ensures r.Failure? <==> (model != "rgb" && model != "hls") || (model == "rgb" && field == [])
    ensures r.Failure? && model != "rgb" ==> r.error == InvalidColourModel(model, InvalidModelMessage)
    ensures r.Success? ==> |r.value| == |field|
  {
    var hls := seq(|field|, i requires 0 <= i < |field| => HlsRow(field[i], atan2));
    if model == "rgb" then
      if field == [] then Failure(EmptyField)
      else Success(seq(|hls|, i requires 0 <= i < |hls| => ConvertToRgb(hls[i], hlsToRgb)))
    else if model == "hls" then Success(hls)
    else Failure(InvalidColourModel(model, InvalidModelMessage))
  }

  /** The hls model: for a field whose angles lie in the range of `arctan2`
      and whose z components lie in [-1, 1], every colour has its hue in
      [0, 2*pi) a whole turn or none from the in-plane angle, its lightness
      in [0, 1] with the z component recoverable, and saturation one. */
  lemma HlsColours(field: seq<Triple>, atan2: (real, real) -> real, hlsToRgb: (real, real, real) -> Triple)
    requires forall i :: 0 <= i < |field| ==> -Pi <= atan2(field[i].1, field[i].0) <= Pi
    ensures var r := GenerateColours(field, atan2, hlsToRgb, "hls");
            r.Success? && |r.value| == |field|
            && forall i :: 0 <= i < |field| ==>
                 var a, c := atan2(field[i].1, field[i].0), r.value[i];
                 0.0 <= c.0 < 2.0 * Pi && (c.0 == a || c.0 == a + 2.0 * Pi)
                 && (0.0 <= c.1 <= 1.0 <==> -1.0 <= field[i].2 <= 1.0)
                 && 2.0 * c.1 - 1.0 == field[i].2
                 && c.2 == 1.0
  {
    forall i | 0 <= i < |field|
      ensures var a := atan2(field[i].1, field[i].0);
              0.0 <= WrapHue(a) < 2.0 * Pi && (WrapHue(a) == a || WrapHue(a) == a + 2.0 * Pi)
    {
      WrapHueRange(atan2(field[i].1, field[i].0));
    }
  }

  /** The rgb model, which is the default: each colour is `hls_to_rgb` of
      the matching hls colour, with the hue passed as a fraction of a turn
      in [0, 1). */
  lemma RgbColours(field: seq<Triple>, atan2: (real, real) -> real, hlsToRgb: (real, real, real) -> Triple)
    requires field != []
    requires forall i :: 0 <= i < |field| ==> -Pi <= atan2(field[i].1, field[i].0) <= Pi
    ensures var r, h := GenerateColours(field, atan2, hlsToRgb), GenerateColours(field, atan2, hlsToRgb, "hls");
            r.Success? && h.Success? && |r.value| == |h.value|
            && forall i :: 0 <= i < |field| ==>
                 0.0 <= h.value[i].0 / (2.0 * Pi) < 1.0
                 && r.value[i] == hlsToRgb(h.value[i].0 / (2.0 * Pi), h.value[i].1, h.value[i].2)
  {
    HlsColours(field, atan2, hlsToRgb);
  }
}
