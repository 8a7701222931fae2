/**
 * The text metrics of the simulator's `FontRenderer`: a loaded glyph map from
 * the decimal code point of a character to the (offset, width, height) of its
 * bitmap, and the font size of the map's metadata (24 when it has none).
 * `measure_string` and the pen position `draw_string` returns both advance by
 * a glyph's width plus one pixel of spacing, or by the font size plus one for
 * a character the map does not hold.
 */
module FontRenderer {
  import opened Wrappers
  import Text

  const DefaultFontSize: int := 24

  /** The loaded `.map` file: `characters` and the `font_size` of `metadata`, if present. */
  datatype FontMap = FontMap(charMap: map<string, (int, int, int)>, fontSize: Option<int>)

  /** `metadata.get('font_size', 24)`. */
  function FontSize(fm: FontMap): int
  {
    match fm.fontSize
    case Some(n) => n
    case None => DefaultFontSize
  }

  /** `str(ord(c))`, the key a character is looked up under. */
  function CharKey(c: char): string
  {
    Text.NatToString(c as int)
  }

  /** The width of the surface `get_char_surface` returns: the glyph's width, or the font size for the placeholder box. */
  function SurfaceWidth(fm: FontMap, c: char): int
  {
    var k := CharKey(c);
    if k in fm.charMap then fm.charMap[k].1 else FontSize(fm)
  }

  /** How far one character moves the pen. */
  function Advance(fm: FontMap, c: char): (r: int)
    ensures CharKey(c) in fm.charMap ==> r == fm.charMap[CharKey(c)].1 + 1
    ensures CharKey(c) !in fm.charMap ==> r == FontSize(fm) + 1
  {
    SurfaceWidth(fm, c) + 1
  }

  /** The rendered width of a text: the sum of its characters' advances. */
  function Width(fm: FontMap, text: string): int
    decreases |text|
  {
    if text == [] then 0 else Width(fm, text[..|text| - 1]) + Advance(fm, text[|text| - 1])
  }

  /** Widths add up over concatenation. */
  lemma {:induction false} WidthAppend(fm: FontMap, a: string, b: string)
    ensures Width(fm, a + b) == Width(fm, a) + Width(fm, b)
    decreases |b|
  {
    if b == [] {
      assert a + b == a;
    } else {
      var b' := b[..|b| - 1];
      assert (a + b)[..|a + b| - 1] == a + b';
      assert (a + b)[|a + b| - 1] == b[|b| - 1];
      WidthAppend(fm, a, b');
    }
  }

  /** The width of one character is its advance; of the empty text, zero. */
  lemma WidthBase(fm: FontMap, c: char)
    ensures Width(fm, "") == 0
    ensures Width(fm, [c]) == Advance(fm, c)
  {
    assert [c][..0] == [];
  }

  /** Characters the map holds with non-negative widths never make a text narrower than one pixel per character. */
  lemma {:induction false} WidthLowerBound(fm: FontMap, text: string)
    requires FontSize(fm) >= 0
    requires forall k :: k in fm.charMap ==> fm.charMap[k].1 >= 0
    ensures Width(fm, text) >= |text|
    decreases |text|
  {
    if text != [] {
      WidthLowerBound(fm, text[..|text| - 1]);
    }
  }

  /** `measure_string(text)`. */
  method MeasureString(fm: FontMap, text: string) returns (width: int)
    ensures width == Width(fm, text)
  {
    width := 0;
    var i := 0;
    while i < |text|
      invariant 0 <= i <= |text|
      invariant width == Width(fm, text[..i])
    {
      var key := CharKey(text[i]);
      if key in fm.charMap {
        var (_, charWidth, _) := fm.charMap[key];
        width := width + charWidth + 1;
      } else {
        width := width + FontSize(fm) + 1;
      }
      assert text[..i + 1][..i] == text[..i];
      i := i + 1;
    }
    assert text[..i] == text;
  }

  /** The pen position `draw_string(surface, text, x, y)` returns after blitting every character. */
  method DrawString(fm: FontMap, text: string, x: int) returns (currentX: int)
    ensures currentX - x == Width(fm, text)
  {
    currentX := x;
    for i := 0 to |text|
      invariant currentX == x + Width(fm, text[..i])
    {
      var surfaceWidth := SurfaceWidth(fm, text[i]);
      currentX := currentX + surfaceWidth + 1;
      assert text[..i + 1][..i] == text[..i];
    }
    assert text[..|text|] == text;
  }
}
