/**
 * The colour hue given to a theme name: a 31-multiplier hash of its UTF-16 code units kept in
 * signed 32-bit range, reduced to [0, 360). The source computes it as `h = ((h << 5) - h) + code; h |= 0`
 * and then `h % 360`, adding 360 to a negative remainder.
 */
module Hue {
  import opened Wrappers
  import Text

  const TwoTo31: int := 0x8000_0000
  const TwoTo32: int := 0x1_0000_0000

  /** JavaScript's `ToInt32`: the signed 32-bit integer congruent to `x` modulo 2^32. */
  function ToInt32(x: int): (r: int)
    ensures -TwoTo31 <= r < TwoTo31
    ensures (x - r) % TwoTo32 == 0
  {
    (x + TwoTo31) % TwoTo32 - TwoTo31
  }

  /** Two integers that agree modulo 2^32 wrap to the same signed 32-bit value. */
  lemma ToInt32Congruent(x: int, y: int)
    requires (x - y) % TwoTo32 == 0
    ensures ToInt32(x) == ToInt32(y)
  {
    var d := ToInt32(x) - ToInt32(y);
    assert d % TwoTo32 == 0;
    assert -TwoTo32 < d < TwoTo32;
  }

  /**
   * The UTF-16 code units of one character, as `charCodeAt` sees them: the character itself
   * inside the Basic Multilingual Plane, otherwise a high and a low surrogate.
   */
  function CodeUnits(c: char): (u: seq<int>)
    ensures 1 <= |u| <= 2
    ensures forall k :: 0 <= k < |u| ==> 0 <= u[k] < 0x1_0000
    ensures |u| == 1 <==> c as int < 0x1_0000
    ensures |u| == 1 ==> u[0] == c as int
    ensures |u| == 2 ==> 0xD800 <= u[0] < 0xDC00 <= u[1] < 0xE000
    ensures |u| == 2 ==> 0x1_0000 + (u[0] - 0xD800) * 0x400 + (u[1] - 0xDC00) == c as int
  {
    var v := c as int;
    if v < 0x1_0000 then [v] else [0xD800 + (v - 0x1_0000) / 0x400, 0xDC00 + (v - 0x1_0000) % 0x400]
  }

  /** The UTF-16 code units of a string: what `s.length` counts and `s.charCodeAt(i)` reads. */
  function Utf16(s: string): (u: seq<int>)
    ensures |s| <= |u| <= 2 * |s|
    ensures forall k :: 0 <= k < |u| ==> 0 <= u[k] < 0x1_0000
  {
    if s == [] then [] else Utf16(s[..|s| - 1]) + CodeUnits(s[|s| - 1])
  }

  /** A string all inside the Basic Multilingual Plane has one code unit per character, equal to it. */
  lemma {:induction false} Utf16OfBmp(s: string)
    requires forall k :: 0 <= k < |s| ==> s[k] as int < 0x1_0000
    ensures |Utf16(s)| == |s|
    ensures forall k :: 0 <= k < |s| ==> Utf16(s)[k] == s[k] as int
  {
    if s != [] {
      var init := s[..|s| - 1];
      Utf16OfBmp(init);
      assert Utf16(s) == Utf16(init) + [s[|s| - 1] as int];
    }
  }

  /** The encoding appends: the code units of `a + b` are those of `a` followed by those of `b`. */
  lemma {:induction false} Utf16Append(a: string, b: string)
    ensures Utf16(a + b) == Utf16(a) + Utf16(b)
  {
    if b != [] {
      var init := b[..|b| - 1];
      assert (a + b)[..|a + b| - 1] == a + init;
      Utf16Append(a, init);
    } else {
      assert a + b == a;
    }
  }

  /** The reference hash: h := ToInt32(31 * h + unit) for each code unit, from h = 0. */
  function StringHash(units: seq<int>): (h: int)
    ensures -TwoTo31 <= h < TwoTo31
  {
    if units == [] then 0 else ToInt32(31 * StringHash(units[..|units| - 1]) + units[|units| - 1])
  }

  /** One step of the loop as the source writes it: `<<` wraps `h * 32` to 32 bits, `|= 0` wraps the sum. */
  function ShiftSubtractStep(h: int, code: int): int {
    ToInt32(ToInt32(h * 32) - h + code)
  }

  /** The shift-and-subtract step equals the 31-multiplier step. */
  lemma ShiftSubtractIsTimes31(h: int, code: int)
    ensures ShiftSubtractStep(h, code) == ToInt32(31 * h + code)
  {
    var w := ToInt32(h * 32);
    assert (h * 32 - w) % TwoTo32 == 0;
    assert (w - h + code) - (31 * h + code) == w - h * 32;
    ToInt32Congruent(w - h + code, 31 * h + code);
  }

  /** JavaScript's `%`: the remainder takes the sign of the dividend. */
  function TruncRem(a: int, b: int): int
    requires b > 0
  {
    if a >= 0 then a % b else -((-a) % b)
  }

  /** `h % 360`, plus 360 when negative, is the non-negative remainder of `h` by 360. */
  lemma JsHueReduction(h: int)
    ensures var r := TruncRem(h, 360); (if r < 0 then r + 360 else r) == h % 360
  {
    if h < 0 {
      var q := (-h) / 360;
      var m := (-h) % 360;
      assert -h == 360 * q + m;
      if m == 0 {
        assert h == 360 * (-q);
      } else {
        assert h == 360 * (-q - 1) + (360 - m);
      }
    }
  }

  /** `hueFromString`: the hue of the code units of `s` itself (no trimming), always in [0, 360). */
  method HueFromString(s: string) returns (hue: int)
    ensures hue == StringHash(Utf16(s)) % 360
    ensures 0 <= hue < 360
  {
    var units := Utf16(s);
    var h := 0;
    for i := 0 to |units|
      invariant h == StringHash(units[..i])
    {
      ShiftSubtractIsTimes31(h, units[i]);
      assert units[..i + 1][..i] == units[..i];
      h := ToInt32(ToInt32(h * 32) - h + units[i]);
    }
    assert units[..|units|] == units;
    JsHueReduction(h);
    h := TruncRem(h, 360);
    if h < 0 {
      h := h + 360;
    }
    hue := h;
  }

  /** `hashHue`: no hue for a missing, empty or blank theme; otherwise the hue of the trimmed theme. */
  method HashHue(s: Option<string>) returns (hue: Option<int>)
    ensures hue.None? <==> s.None? || Text.IsBlank(s.value)
    ensures hue.Some? ==> hue.value == StringHash(Utf16(Text.Trim(s.value))) % 360 && 0 <= hue.value < 360
  {
    if s.None? || s.value == [] {
      return None;
    }
    var str := Text.Trim(s.value);
    if str == [] {
      return None;
    }
    var h := HueFromString(str);
    hue := Some(h);
  }
}
