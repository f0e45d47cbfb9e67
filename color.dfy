/**
 * `generate_color_by_text(text)` (libs/utils.py) from the SHA-256 digest of
 * the text onward: the first three digest bytes become red, green and blue,
 * each is remapped linearly from [0, 255] into [50, 200] (`clamp_range`),
 * a nearly grey colour gets its saturation boosted (`boost_saturation`), and
 * the result is a QColor with alpha 80.
 *
 * The source computes `clamp_range` and the 1.2 / 0.8 factors in floating
 * point and truncates with `int()`; the model uses exact integer arithmetic
 * and assumes the float expressions round to the same integers.
 */
module Color {

  type Byte = x: int | 0 <= x < 256

  /** Red, green and blue while the colour is being derived. */
  datatype Rgb = Rgb(r: int, g: int, b: int)

  /** The QColor(r, g, b, alpha) the function returns. */
  datatype Rgba = Rgba(r: int, g: int, b: int, alpha: int)

  const Low := 50
  const High := 200
  /** The grey threshold on max - min. */
  const Threshold := 40
  /** The alpha passed to QColor (a comment beside it says 120). */
  const Alpha := 80

  /** `clamp_range(v) = int(50 + (v / 255) * 150)`. */
  function ClampRange(v: Byte): (c: int)
    ensures Low <= c <= High
    ensures v == 0 ==> c == Low
    ensures v == 255 ==> c == High
    ensures (c - Low) * 255 <= v * 150 < (c - Low + 1) * 255
  {
    50 + v * 150 / 255
  }

  /** A darker byte never maps to a brighter channel. */
  lemma ClampRangeMonotone(u: Byte, v: Byte)
    requires u <= v
    ensures ClampRange(u) <= ClampRange(v)
  {
    assert u * 150 <= v * 150;
  }

  /** `int(x * num / den)`: Python's `int()` truncates toward zero. */
  function TruncScale(x: int, num: nat, den: nat): int
    requires den > 0
  {
    if x >= 0 then x * num / den else -((-x) * num / den)
  }

  function Max3(a: int, b: int, c: int): (m: int)
    ensures m >= a && m >= b && m >= c
    ensures m == a || m == b || m == c
  {
    if a >= b && a >= c then a else if b >= c then b else c
  }

  function Min3(a: int, b: int, c: int): (m: int)
    ensures m <= a && m <= b && m <= c
    ensures m == a || m == b || m == c
  {
    if a <= b && a <= c then a else if b <= c then b else c
  }

  function Spread(c: Rgb): int {
    Max3(c.r, c.g, c.b) - Min3(c.r, c.g, c.b)
  }

  ghost predicate InRange(c: Rgb) {
    Low <= c.r <= High && Low <= c.g <= High && Low <= c.b <= High
  }

  /** `max(50, min(x, 200))`. */
  function ClampChannel(x: int): (y: int)
    ensures Low <= y <= High
    ensures Low <= x <= High ==> y == x
  {
    if x < Low then Low else if x > High then High else x
  }

  /** One channel of the grey case: the maximum times 1.2, any other times 0.8. */
  function BoostChannel(x: int, maxVal: int): int {
    ClampChannel(if x == maxVal then TruncScale(x, 6, 5) else TruncScale(x, 4, 5))
  }

  /**
   * `boost_saturation(r, g, b)`: a colour whose channels are at least 40
   * apart is returned as it is; a greyer one is pushed apart and clamped to
   * [50, 200].
   */
  function BoostSaturation(c: Rgb): (out: Rgb)
    ensures Spread(c) >= Threshold ==> out == c
    ensures Spread(c) < Threshold ==> InRange(out)
  {
    var maxVal := Max3(c.r, c.g, c.b);
    var minVal := Min3(c.r, c.g, c.b);
    if maxVal - minVal < Threshold then
      Rgb(BoostChannel(c.r, maxVal), BoostChannel(c.g, maxVal), BoostChannel(c.b, maxVal))
    else c
  }

  /** In [50, 200], a maximal channel never goes down and any other never goes up. */
  lemma BoostChannelDirection(x: int, maxVal: int)
    requires Low <= x <= High
    ensures x == maxVal ==> BoostChannel(x, maxVal) >= x
    ensures x != maxVal ==> BoostChannel(x, maxVal) <= x
  {
    if x == maxVal {
      assert TruncScale(x, 6, 5) >= x;
    } else {
      assert TruncScale(x, 4, 5) <= x;
    }
  }

  /**
   * The grey case on a colour in [50, 200]: channels equal to the maximum
   * never decrease, the others never increase, so the spread never shrinks.
   */
  lemma BoostWidensSpread(c: Rgb)
    requires InRange(c) && Spread(c) < Threshold
    ensures var out, maxVal := BoostSaturation(c), Max3(c.r, c.g, c.b);
      && (c.r == maxVal ==> out.r >= c.r) && (c.r != maxVal ==> out.r <= c.r)
      && (c.g == maxVal ==> out.g >= c.g) && (c.g != maxVal ==> out.g <= c.g)
      && (c.b == maxVal ==> out.b >= c.b) && (c.b != maxVal ==> out.b <= c.b)
    ensures Spread(BoostSaturation(c)) >= Spread(c)
  {
    var maxVal := Max3(c.r, c.g, c.b);
    BoostChannelDirection(c.r, maxVal);
    BoostChannelDirection(c.g, maxVal);
    BoostChannelDirection(c.b, maxVal);
  }

  /**
   * The boost only moves channels apart when they differ: a colour whose
   * three channels are equal stays grey, every channel raised together.
   */
  lemma EqualChannelsStayGrey(v: int)
    requires Low <= v <= High
    ensures BoostSaturation(Rgb(v, v, v)).r >= v
    ensures Spread(BoostSaturation(Rgb(v, v, v))) == 0
  {
  }

  /**
   * The colour for a text whose SHA-256 digest is `digest`: only the first
   * three bytes are read.
   */
  function ColorFromDigest(digest: seq<Byte>): (q: Rgba)
    requires |digest| >= 3
    ensures Low <= q.r <= High && Low <= q.g <= High && Low <= q.b <= High
    ensures q.alpha == 80
  {
    var remapped := Rgb(ClampRange(digest[0]), ClampRange(digest[1]), ClampRange(digest[2]));
    var c := BoostSaturation(remapped);
    Rgba(c.r, c.g, c.b, Alpha)
  }

  /** Two digests that agree on their first three bytes give the same colour. */
  lemma ColorFromFirstThreeBytes(d1: seq<Byte>, d2: seq<Byte>)
    requires |d1| >= 3 && |d2| >= 3 && d1[..3] == d2[..3]
    ensures ColorFromDigest(d1) == ColorFromDigest(d2)
  {
    assert d1[0] == d1[..3][0] && d1[1] == d1[..3][1] && d1[2] == d1[..3][2];
    assert d2[0] == d2[..3][0] && d2[1] == d2[..3][1] && d2[2] == d2[..3][2];
  }

  /** A remapped colour that is already colourful comes out unchanged. */
  lemma ColorfulUnchanged(digest: seq<Byte>)
    requires |digest| >= 3
    requires Spread(Rgb(ClampRange(digest[0]), ClampRange(digest[1]), ClampRange(digest[2]))) >= Threshold
    ensures ColorFromDigest(digest) == Rgba(ClampRange(digest[0]), ClampRange(digest[1]), ClampRange(digest[2]), Alpha)
  {
  }
}
