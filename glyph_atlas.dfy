/**
 * The font half of the converter (`convert_font_optimized`): every character
 * of the charset with a visible glyph gets a bitmap of `width * height`
 * grey levels, appended to one pool, and a record saying where it lies,
 * sorted by code point and packed as 14 little-endian bytes `<IIBBbbbB`.
 * The charset itself is assembled from a base set and a fixed ASCII list.
 */
module GlyphAtlas {
  import opened Wrappers
  import opened Utf8
  import opened Packing
  import Order

  const FontSize: nat := 12

  /** `struct.calcsize("<IIBBbbbB")`: 4 + 4 + 6 * 1 bytes. */
  const FontRecordSize: nat := 14

  /**
   * What the font says of one character: the left and top edges of its
   * bounding box, the box's width and height, and the advance width (a float).
   */
  datatype Metrics = Metrics(left: int, top: int, width: nat, height: nat, advance: real)

  /**
   * The loaded font: per-character metrics, and the grey level the
   * rasteriser gives to the point (x, y) of a character drawn at the origin.
   */
  datatype Font = Font(metrics: char -> Metrics, ink: (char, int, int) -> byte)

  /** The record kept for one glyph, before packing (`font_map_records`). */
  datatype GlyphRecord = GlyphRecord(
    unicode: int, offset: int, width: int, height: int,
    xAdvance: int, xOffset: int, yOffset: int, padding: int)

  /** The size and placement of the bitmap drawn for a character. */
  datatype Box = Box(width: nat, height: nat, left: int, top: int)

  /** Python's `int()` of a float: the integer part, rounding toward zero. */
  function Trunc(x: real): (r: int)
    ensures x >= 0.0 ==> r >= 0 && r as real <= x < (r + 1) as real
    ensures x < 0.0 ==> r <= 0 && (r - 1) as real < x <= r as real
  {
    if x >= 0.0 then x.Floor else -((-x).Floor)
  }

  /**
   * The box the converter draws `c` in: its bounding box when that has an
   * area; for a space without one, the advance (or a third of the font size)
   * by the font size at the origin; for any other empty glyph, none.
   */
  function GlyphBox(c: char, m: Metrics): (b: Option<Box>)
    ensures c == ' ' ==> b.Some? && b.value.height > 0
    ensures c != ' ' ==> (b.Some? <==> m.width > 0 && m.height > 0)
    ensures b.Some? && m.width > 0 && m.height > 0 ==> b.value == Box(m.width, m.height, m.left, m.top)
    ensures b.Some? && (m.width == 0 || m.height == 0) ==>
              b.value.left == 0 && b.value.top == 0 && b.value.height == FontSize
              && (m.advance > 0.0 ==> b.value.width as real <= m.advance < (b.value.width + 1) as real)
              && (m.advance <= 0.0 ==> b.value.width == 4)
  {
    if m.width == 0 || m.height == 0 then
      if c == ' ' then
        Some(Box(if m.advance > 0.0 then Trunc(m.advance) else FontSize / 3, FontSize, 0, 0))
      else None
    else Some(Box(m.width, m.height, m.left, m.top))
  }

  /** Row `y` of the image: the grey levels of the points (x + left, y + top). */
  function Row(font: Font, c: char, box: Box, y: int): (r: seq<byte>)
    ensures |r| == box.width
  {
    var row := seq<byte>(box.width, x => font.ink(c, x + box.left, y + box.top));
    row
  }

  /** The first `h` rows of the image of `c`, top row first (`Image.tobytes()` of mode "L"). */
  function Rows(font: Font, c: char, box: Box, h: nat): (r: seq<byte>)
    ensures |r| == box.width * h
  {
    if h == 0 then [] else Rows(font, c, box, h - 1) + Row(font, c, box, h - 1)
  }

  function Bitmap(font: Font, c: char, box: Box): (r: seq<byte>)
    ensures |r| == box.width * box.height
  {
    Rows(font, c, box, box.height)
  }

  /** Pixel (x, y) of the bitmap is at `y * width + x`, and holds the ink at (x + left, y + top). */
  lemma {:induction false} RowsPixel(font: Font, c: char, box: Box, h: nat, x: nat, y: nat)
    requires x < box.width && y < h
    ensures y * box.width + x < box.width * h
    ensures Rows(font, c, box, h)[y * box.width + x] == font.ink(c, x + box.left, y + box.top)
  {
    var w := box.width;
    if y == h - 1 {
      assert y * w == w * (h - 1);
    } else {
      RowsPixel(font, c, box, h - 1, x, y);
      assert w * (h - 1) <= w * h;
    }
  }

  function End(r: GlyphRecord): int
  {
    r.offset + r.width * r.height
  }

  /** The record of `c` whose bitmap starts at `offset`. */
  function MakeRecord(c: char, offset: nat, box: Box, advance: real): GlyphRecord
  {
    GlyphRecord(c as int, offset, box.width, box.height, Trunc(advance), box.left, box.top, 0)
  }

  /** The characters of `s` that get a glyph, in order. */
  function Kept(font: Font, s: string): (r: string)
    ensures |r| <= |s|
    ensures forall i :: 0 <= i < |r| ==> r[i] in s && GlyphBox(r[i], font.metrics(r[i])).Some?
    decreases |s|
  {
    if s == [] then []
    else
      var c := s[|s| - 1];
      var rest := Kept(font, s[..|s| - 1]);
      if GlyphBox(c, font.metrics(c)).Some? then rest + [c] else rest
  }

  /** Record `k` is the record of character `c`, and the pool holds the bitmap of `c` where it says. */
  predicate Placed(font: Font, c: char, r: GlyphRecord, pool: seq<byte>)
  {
    var m := font.metrics(c);
    var box := GlyphBox(c, m);
    && box.Some?
    && 0 <= r.offset
    && r == MakeRecord(c, r.offset, box.value, m.advance)
    && End(r) <= |pool|
    && pool[r.offset..End(r)] == Bitmap(font, c, box.value)
  }

  /**
   * The bitmaps lie end to end: the first at 0, each next where the one
   * before it ends, the last ending at the end of the pool.
   */
  predicate Contiguous(records: seq<GlyphRecord>, poolLength: int)
  {
    && (records == [] ==> poolLength == 0)
    && (records != [] ==> records[0].offset == 0 && End(records[|records| - 1]) == poolLength)
    && (forall k :: 0 < k < |records| ==> records[k].offset == End(records[k - 1]))
  }

  datatype Atlas = Atlas(records: seq<GlyphRecord>, pool: seq<byte>)

  /** The records and the bitmap pool the rendering loop builds for `s`. */
  function Layout(font: Font, s: string): (a: Atlas)
    ensures |a.records| == |Kept(font, s)|
    decreases |s|
  {
    if s == [] then Atlas([], [])
    else
      var c := s[|s| - 1];
      var a := Layout(font, s[..|s| - 1]);
      var m := font.metrics(c);
      match GlyphBox(c, m)
      case None => a
      case Some(box) =>
        Atlas(a.records + [MakeRecord(c, |a.pool|, box, m.advance)], a.pool + Bitmap(font, c, box))
  }

  /** A well-laid-out atlas: contiguous bitmaps, record `k` describing kept character `k`. */
  predicate WellLaid(font: Font, kept: string, a: Atlas)
  {
    && |a.records| == |kept|
    && Contiguous(a.records, |a.pool|)
    && (forall k :: 0 <= k < |a.records| ==> Placed(font, kept[k], a.records[k], a.pool))
  }

  /** Appending the glyph of one more character keeps the atlas well laid out. */
  lemma AppendGlyph(font: Font, kept: string, a: Atlas, c: char, box: Box)
    requires WellLaid(font, kept, a)
    requires GlyphBox(c, font.metrics(c)) == Some(box)
    ensures WellLaid(font, kept + [c],
              Atlas(a.records + [MakeRecord(c, |a.pool|, box, font.metrics(c).advance)], a.pool + Bitmap(font, c, box)))
  {
    var r := MakeRecord(c, |a.pool|, box, font.metrics(c).advance);
    var bitmap := Bitmap(font, c, box);
    var pool := a.pool + bitmap;
    var records := a.records + [r];
    var kept' := kept + [c];
    assert End(r) == |pool|;
    assert pool[r.offset..End(r)] == bitmap;
    assert Placed(font, kept'[|kept|], records[|kept|], pool);
    forall k | 0 <= k < |a.records| ensures Placed(font, kept'[k], records[k], pool) {
      var q := a.records[k];
      assert Placed(font, kept[k], q, a.pool);
      assert pool[q.offset..End(q)] == a.pool[q.offset..End(q)];
      assert kept'[k] == kept[k] && records[k] == q;
    }
    assert Contiguous(records, |pool|);
  }

  /**
   * What the rendering loop leaves: the bitmaps of the kept characters end
   * to end in one pool, and record `k` describes kept character `k` and
   * points at its bitmap.
   */
  lemma {:induction false} LayoutWellLaid(font: Font, s: string)
    ensures WellLaid(font, Kept(font, s), Layout(font, s))
    decreases |s|
  {
    if s != [] {
      var c := s[|s| - 1];
      LayoutWellLaid(font, s[..|s| - 1]);
      match GlyphBox(c, font.metrics(c))
      case None =>
      case Some(box) =>
        AppendGlyph(font, Kept(font, s[..|s| - 1]), Layout(font, s[..|s| - 1]), c, box);
    }
  }

  /** No two bitmaps overlap: a record's bitmap ends before any later one starts. */
  lemma {:induction false} Disjoint(records: seq<GlyphRecord>, poolLength: int, k: int, l: int)
    requires Contiguous(records, poolLength)
    requires forall j :: 0 <= j < |records| ==> records[j].offset <= End(records[j])
    requires 0 <= k < l < |records|
    ensures End(records[k]) <= records[l].offset
    decreases l - k
  {
    if l > k + 1 {
      Disjoint(records, poolLength, k, l - 1);
    }
  }

  function UnicodeKey(r: GlyphRecord): seq<int>
  {
    [r.unicode]
  }

  function CodePointKey(c: char): seq<int>
  {
    [c as int]
  }

  /** Keeping only some characters of a strictly ascending string leaves it strictly ascending. */
  lemma {:induction false} KeptAscending(font: Font, s: string)
    requires Order.StrictlyAscending(s, CodePointKey)
    ensures Order.StrictlyAscending(Kept(font, s), CodePointKey)
    decreases |s|
  {
    if s != [] {
      var p := s[..|s| - 1];
      var c := s[|s| - 1];
      assert Order.StrictlyAscending(p, CodePointKey) by {
        forall i, j | 0 <= i < j < |p| ensures Order.LexLess(CodePointKey(p[i]), CodePointKey(p[j])) {
          assert p[i] == s[i] && p[j] == s[j];
        }
      }
      KeptAscending(font, p);
      var rest := Kept(font, p);
      if GlyphBox(c, font.metrics(c)).Some? {
        var r := rest + [c];
        forall i, j | 0 <= i < j < |r| ensures Order.LexLess(CodePointKey(r[i]), CodePointKey(r[j])) {
          if j == |r| - 1 {
            assert r[i] in p;
            var k :| 0 <= k < |p| && p[k] == r[i];
            assert s[k] == r[i];
          } else {
            assert r[i] == rest[i] && r[j] == rest[j];
          }
        }
      }
    }
  }

  /**
   * For a charset in ascending code point order, as the assembled one is,
   * the records come out strictly ascending by code point and the sort
   * leaves them as they are.
   */
  lemma RecordsSorted(font: Font, charset: string)
    requires Order.StrictlyAscending(charset, CodePointKey)
    ensures Order.StrictlyAscending(Layout(font, charset).records, UnicodeKey)
    ensures Order.SortByKey(Layout(font, charset).records, UnicodeKey) == Layout(font, charset).records
  {
    var a := Layout(font, charset);
    var kept := Kept(font, charset);
    KeptAscending(font, charset);
    LayoutWellLaid(font, charset);
    forall i, j | 0 <= i < j < |a.records| ensures Order.LexLess(UnicodeKey(a.records[i]), UnicodeKey(a.records[j])) {
      assert Placed(font, kept[i], a.records[i], a.pool);
      assert Placed(font, kept[j], a.records[j], a.pool);
      assert UnicodeKey(a.records[i]) == CodePointKey(kept[i]);
      assert UnicodeKey(a.records[j]) == CodePointKey(kept[j]);
    }
    Order.StrictIsAscending(a.records, UnicodeKey);
    Order.SortAscendingIdentity(a.records, UnicodeKey);
  }

  /** The ranges of `<IIBBbbbB`: two 32-bit unsigned, two unsigned bytes, three signed bytes, one unsigned byte. */
  predicate Fits(r: GlyphRecord)
  {
    && 0 <= r.unicode < 0x1_0000_0000 && 0 <= r.offset < 0x1_0000_0000
    && 0 <= r.width < 256 && 0 <= r.height < 256
    && -128 <= r.xAdvance < 128 && -128 <= r.xOffset < 128 && -128 <= r.yOffset < 128
    && 0 <= r.padding < 256
  }

  /** `struct.pack("<IIBBbbbB", ...)` of one record. */
  function PackRecord(r: GlyphRecord): Result<seq<byte>, PackError>
  {
    Then(Then(Then(Then(Then(Then(Then(
      PackUnsigned("unicode", r.unicode, 4),
      PackUnsigned("offset", r.offset, 4)),
      PackUnsigned("width", r.width, 1)),
      PackUnsigned("height", r.height, 1)),
      PackSigned8("x_advance", r.xAdvance)),
      PackSigned8("x_offset", r.xOffset)),
      PackSigned8("y_offset", r.yOffset)),
      PackUnsigned("padding", r.padding, 1))
  }

  /** `struct.unpack("<IIBBbbbB", ...)`: the record the 14 bytes stand for in the format they were packed with. */
  function UnpackRecord(b: seq<byte>): GlyphRecord
    requires |b| == FontRecordSize
  {
    GlyphRecord(Unsigned(b[0..4]), Unsigned(b[4..8]), b[8], b[9], Signed8(b[10]), Signed8(b[11]), Signed8(b[12]), b[13])
  }

  /** A record packs exactly when every field fits, into 14 bytes that read back as the record. */
  lemma PackRecordRoundTrip(r: GlyphRecord)
    ensures PackRecord(r).Ok? <==> Fits(r)
    ensures PackRecord(r).Ok? ==> |PackRecord(r).value| == FontRecordSize && UnpackRecord(PackRecord(r).value) == r
  {
    assert Pow256(1) == 256;
    assert Pow256(4) == 0x1_0000_0000 by {
      assert Pow256(2) == 0x1_0000;
      assert Pow256(3) == 0x100_0000;
    }
    if PackRecord(r).Ok? {
      var b := PackRecord(r).value;
      var u := PackUnsigned("unicode", r.unicode, 4).value;
      var o := PackUnsigned("offset", r.offset, 4).value;
      assert b[0..4] == u && b[4..8] == o;
      assert Unsigned([b[8]]) == b[8] && Unsigned([b[9]]) == b[9] && Unsigned([b[13]]) == b[13];
      assert [b[8]] == PackUnsigned("width", r.width, 1).value;
      assert [b[9]] == PackUnsigned("height", r.height, 1).value;
      assert [b[13]] == PackUnsigned("padding", r.padding, 1).value;
    }
  }

  /**
   * How the firmware reads a 14-byte record through the struct the header
   * declares, which types `x_advance` as `uint8_t` although it is packed with
   * the signed `b` code.
   */
  function FirmwareRecord(b: seq<byte>): GlyphRecord
    requires |b| == FontRecordSize
  {
    GlyphRecord(Unsigned(b[0..4]), Unsigned(b[4..8]), b[8], b[9], b[10], Signed8(b[11]), Signed8(b[12]), b[13])
  }

  /**
   * The firmware reads every field of a packed record as it was packed except
   * a negative advance, which it reads 256 higher: the two readings agree
   * exactly when the advance is not negative.
   */
  lemma FirmwareAdvance(r: GlyphRecord)
    requires PackRecord(r).Ok?
    ensures |PackRecord(r).value| == FontRecordSize
    ensures FirmwareRecord(PackRecord(r).value)
            == r.(xAdvance := if r.xAdvance >= 0 then r.xAdvance else r.xAdvance + 256)
    ensures FirmwareRecord(PackRecord(r).value) == r <==> r.xAdvance >= 0
  {
    PackRecordRoundTrip(r);
    var b := PackRecord(r).value;
    assert Signed8(b[10]) == r.xAdvance;
  }

  /** Every record of the list fits its fields. */
  predicate AllFit(rs: seq<GlyphRecord>)
  {
    forall k :: 0 <= k < |rs| ==> Fits(rs[k])
  }

  /** Bytes that read back, 14 at a time, as the records of `rs`. */
  predicate PacksAs(bytes: seq<byte>, rs: seq<GlyphRecord>)
  {
    && |bytes| == FontRecordSize * |rs|
    && forall k :: 0 <= k < |rs| ==>
         UnpackRecord(bytes[FontRecordSize * k..FontRecordSize * k + FontRecordSize]) == rs[k]
  }

  /** Every glyph record that packs takes 14 bytes. */
  lemma RecordWidth(rs: seq<GlyphRecord>)
    ensures FixedWidth(rs, PackRecord, FontRecordSize)
  {
    forall k | 0 <= k < |rs| ensures PackRecord(rs[k]).Ok? ==> |PackRecord(rs[k]).value| == FontRecordSize {
      PackRecordRoundTrip(rs[k]);
    }
  }

  /** Slice `k` of the packed list reads back as `rs[k]`. */
  lemma RecordSlot(rs: seq<GlyphRecord>, k: nat)
    requires PackEach(rs, PackRecord).Ok? && k < |rs|
    ensures |PackEach(rs, PackRecord).value| == FontRecordSize * |rs| && FontRecordSize * k + FontRecordSize <= FontRecordSize * |rs|
    ensures UnpackRecord(PackEach(rs, PackRecord).value[FontRecordSize * k..FontRecordSize * k + FontRecordSize]) == rs[k]
  {
    RecordWidth(rs);
    PackEachSlice(rs, PackRecord, FontRecordSize, k);
    PackRecordRoundTrip(rs[k]);
  }

  /**
   * The font map packs exactly when every record fits, and then it is
   * `14 * n` bytes whose `k`-th slice of 14 reads back as record `k`.
   */
  lemma FontMapRoundTrip(rs: seq<GlyphRecord>)
    ensures PackEach(rs, PackRecord).Ok? <==> AllFit(rs)
    ensures PackEach(rs, PackRecord).Ok? ==> PacksAs(PackEach(rs, PackRecord).value, rs)
  {
    PackEachOk(rs, PackRecord);
    forall k | 0 <= k < |rs| ensures PackRecord(rs[k]).Ok? <==> Fits(rs[k]) {
      PackRecordRoundTrip(rs[k]);
    }
    if PackEach(rs, PackRecord).Ok? {
      RecordWidth(rs);
      PackEachLength(rs, PackRecord, FontRecordSize);
      forall k | 0 <= k < |rs|
        ensures UnpackRecord(PackEach(rs, PackRecord).value[FontRecordSize * k..FontRecordSize * k + FontRecordSize]) == rs[k]
      {
        RecordSlot(rs, k);
      }
    }
  }

  /** `font_map_count_opt`: the packed length over the record size. */
  function FontMapCount(data: seq<byte>): nat
  {
    |data| / FontRecordSize
  }

  /** The count written to the header is the number of records packed. */
  lemma FontMapCountIsRecords(rs: seq<GlyphRecord>)
    requires PackEach(rs, PackRecord).Ok?
    ensures FontMapCount(PackEach(rs, PackRecord).value) == |rs|
  {
    FontMapRoundTrip(rs);
  }

  datatype FontError = FontUnavailable | RecordOverflow(error: PackError)

  /** The font map bytes and the bitmap pool the converter returns for `charset`. */
  function FontBlobs(font: Font, charset: string): Result<(seq<byte>, seq<byte>), FontError>
  {
    var a := Layout(font, charset);
    match PackEach(Order.SortByKey(a.records, UnicodeKey), PackRecord)
    case Ok(map_) => Ok((map_, a.pool))
    case Err(e) => Err(RecordOverflow(e))
  }

  /** The rendering loop: one bitmap and one record per character that has a glyph. */
  method RenderGlyphs(f: Font, charset: string) returns (records: seq<GlyphRecord>, pool: seq<byte>)
    ensures Atlas(records, pool) == Layout(f, charset)
  {
    records, pool := [], [];
    for i := 0 to |charset|
      invariant Atlas(records, pool) == Layout(f, charset[..i])
    {
      var c := charset[i];
      var m := f.metrics(c);
      assert charset[..i + 1][..i] == charset[..i];
      var width, height, left, top := m.width, m.height, m.left, m.top;
      if width == 0 || height == 0 {
        if c == ' ' {
          width, height, left, top := if m.advance > 0.0 then Trunc(m.advance) else FontSize / 3, FontSize, 0, 0;
        } else {
          continue;
        }
      }
      var offset := |pool|;
      pool := pool + Bitmap(f, c, Box(width, height, left, top));
      records := records + [GlyphRecord(c as int, offset, width, height, Trunc(m.advance), left, top, 0)];
    }
    assert charset[..|charset|] == charset;
  }

  /**
   * `convert_font_optimized`: render the glyphs of `charset` in order,
   * sort the records by code point and pack them; a font that cannot be
   * loaded gives no data.
   */
  method ConvertFont(font: Option<Font>, charset: string) returns (r: Result<(seq<byte>, seq<byte>), FontError>)
    ensures font.None? ==> r == Err(FontUnavailable)
    ensures font.Some? ==> r == FontBlobs(font.value, charset)
  {
    if font.None? {
      return Err(FontUnavailable);
    }
    var records, pool := RenderGlyphs(font.value, charset);
    var sorted := Order.SortByKey(records, UnicodeKey);
    var packed := PackList(sorted, PackRecord);
    match packed
    case Err(e) => return Err(RecordOverflow(e));
    case Ok(bytes) => return Ok((bytes, pool));
  }

  /** The ASCII characters every build adds to the charset. */
  const AsciiChars: string := "abcdefghijklmnopqrstuvwxyzABCDEFGHIJKLMNOPQRSTUVWXYZ0123456789 ,.?!:;()[]{}<>@#$%^&*-=_+`~'\U{201C}\"\\|/"

  /**
   * The final charset: nothing when the base set is empty, otherwise the
   * base set joined with the ASCII characters, each once, in code point order.
   */
  method AssembleCharset(base: set<char>) returns (r: Option<string>)
    ensures r.None? <==> base == {}
    ensures r.Some? ==> Order.StrictlyAscending(r.value, CodePointKey)
    ensures r.Some? ==> forall c :: c in r.value <==> c in base || c in AsciiChars
  {
    if base == {} {
      return None;
    }
    var all := base + set c | c in AsciiChars;
    assert Order.InjectiveOn(all, CodePointKey) by {
      forall a, b | a in all && b in all && CodePointKey(a) == CodePointKey(b) ensures a == b {
        assert CodePointKey(a)[0] == a as int;
        assert CodePointKey(b)[0] == b as int;
      }
    }
    var list := Order.SortedList(all, CodePointKey);
    return Some(list);
  }
}
