/**
 * The C text the converter writes into the generated header
 * (`format_byte_array_to_c` inside `generate_header_file_optimized`): a
 * `PROGMEM` byte array declaration, sixteen `0x%02x` literals to a line,
 * each line indented by four spaces and ending in a comma; and the
 * `const size_t` record counts written after the arrays.
 */
module CArray {
  import opened Utf8
  import Text

  /** The bytes per line of the array. */
  const BytesPerLine: nat := 16

  const LowerHexDigits: string := "0123456789abcdef"

  /** The value of a lowercase hexadecimal digit, or -1 for any other character. */
  function HexDigitValue(c: char): int
  {
    if '0' <= c <= '9' then c as int - '0' as int
    else if 'a' <= c <= 'f' then c as int - 'a' as int + 10
    else -1
  }

  /** `f"0x{b:02x}"`: two lowercase hexadecimal digits after `0x`. */
  function Hex(b: byte): (r: string)
    ensures |r| == 4 && r[0] == '0' && r[1] == 'x'
  {
    "0x" + [LowerHexDigits[b / 16], LowerHexDigits[b % 16]]
  }

  /** A literal reads back as its byte, so different bytes print differently. */
  lemma HexRoundTrip(b: byte)
    ensures 0 <= HexDigitValue(Hex(b)[2]) < 16 && 0 <= HexDigitValue(Hex(b)[3]) < 16
    ensures HexDigitValue(Hex(b)[2]) * 16 + HexDigitValue(Hex(b)[3]) == b
  {
    var hi, lo := b / 16, b % 16;
    assert Hex(b)[2] == LowerHexDigits[hi] && Hex(b)[3] == LowerHexDigits[lo];
    assert forall d :: 0 <= d < 16 ==> HexDigitValue(LowerHexDigits[d]) == d;
  }

  /** `", ".join(...)` of the literals of `chunk`. */
  function Items(chunk: seq<byte>): string
    decreases |chunk|
  {
    if chunk == [] then ""
    else if |chunk| == 1 then Hex(chunk[0])
    else Hex(chunk[0]) + ", " + Items(chunk[1..])
  }

  /** The literals of a non-empty chunk take six characters each but the last, which takes four. */
  lemma {:induction false} ItemsLength(chunk: seq<byte>)
    requires chunk != []
    ensures |Items(chunk)| == 6 * |chunk| - 2
    decreases |chunk|
  {
    if |chunk| > 1 {
      ItemsLength(chunk[1..]);
    }
  }

  /** A slice past the first part of a concatenation is a slice of the second part. */
  lemma SliceShift(a: string, b: string, i: nat, j: nat)
    requires i <= j <= |b|
    ensures (a + b)[|a| + i..|a| + j] == b[i..j]
  {
  }

  /** A list of two or more literals is the first literal, `", "`, and the list of the rest. */
  lemma ItemsCons(chunk: seq<byte>)
    requires |chunk| > 1
    ensures Items(chunk) == (Hex(chunk[0]) + ", ") + Items(chunk[1..])
  {
  }

  /** Literal `k` of a chunk sits at character `6 * k`. */
  lemma {:induction false} ItemsAt(chunk: seq<byte>, k: nat)
    requires k < |chunk|
    ensures |Items(chunk)| == 6 * |chunk| - 2
    ensures Items(chunk)[6 * k..6 * k + 4] == Hex(chunk[k])
    decreases |chunk|
  {
    ItemsLength(chunk);
    if k > 0 {
      var head := Hex(chunk[0]) + ", ";
      ItemsCons(chunk);
      ItemsAt(chunk[1..], k - 1);
      assert chunk[1..][k - 1] == chunk[k];
      SliceShift(head, Items(chunk[1..]), 6 * (k - 1), 6 * (k - 1) + 4);
    } else if |chunk| > 1 {
      ItemsCons(chunk);
    }
  }

  /** Each literal but the last is followed by `", "`. */
  lemma {:induction false} ItemsSeparated(chunk: seq<byte>, k: nat)
    requires k + 1 < |chunk|
    ensures |Items(chunk)| == 6 * |chunk| - 2
    ensures Items(chunk)[6 * k + 4..6 * k + 6] == ", "
    decreases |chunk|
  {
    ItemsLength(chunk);
    ItemsCons(chunk);
    if k > 0 {
      var head := Hex(chunk[0]) + ", ";
      ItemsSeparated(chunk[1..], k - 1);
      SliceShift(head, Items(chunk[1..]), 6 * (k - 1) + 4, 6 * (k - 1) + 6);
    }
  }

  /** One line of the array: four spaces, the literals, a comma. */
  function Row(chunk: seq<byte>): string
  {
    "    " + Items(chunk) + ","
  }

  /** `range(0, len(data), 16)` has this many steps. */
  function ChunkCount(n: nat): nat
  {
    (n + BytesPerLine - 1) / BytesPerLine
  }

  /** `data[i:i+16]` for `i = 16 * k`. */
  function Chunk(data: seq<byte>, k: nat): (c: seq<byte>)
    requires k < ChunkCount(|data|)
    ensures 1 <= |c| <= BytesPerLine
  {
    var start := BytesPerLine * k;
    var end := if start + BytesPerLine <= |data| then start + BytesPerLine else |data|;
    data[start..end]
  }

  /** `const uint8_t NAME[N] PROGMEM = {`. */
  function Header(name: string, n: nat): string
  {
    "const uint8_t " + name + "[" + Text.NatToString(n) + "] PROGMEM = {"
  }

  const Footer: string := "};"

  /** The list `c_code` the function builds. */
  function ArrayLines(name: string, data: seq<byte>): seq<string>
  {
    [Header(name, |data|)]
    + seq(ChunkCount(|data|), k requires 0 <= k < ChunkCount(|data|) => Row(Chunk(data, k)))
    + [Footer]
  }

  /** The declaration: the joined lines. */
  function FormatByteArray(name: string, data: seq<byte>): string
  {
    Text.JoinOn(ArrayLines(name, data), '\n')
  }

  /**
   * The declaration has a header naming the array and its length, one line
   * per started block of sixteen bytes, and the closing `};`.
   */
  lemma ArrayShape(name: string, data: seq<byte>)
    ensures var lines := ArrayLines(name, data);
            && |lines| == ChunkCount(|data|) + 2
            && lines[0] == Header(name, |data|)
            && lines[|lines| - 1] == Footer
            && (forall k :: 1 <= k < |lines| - 1 ==> lines[k][..4] == "    " && lines[k][|lines[k]| - 1] == ',')
  {
  }

  /** Literal `i` of a line sits after the four-space indent, six characters per literal. */
  lemma RowAt(chunk: seq<byte>, i: nat)
    requires i < |chunk|
    ensures |Row(chunk)| == 6 * |chunk| + 3
    ensures Row(chunk)[4 + 6 * i..4 + 6 * i + 4] == Hex(chunk[i])
  {
    ItemsAt(chunk, i);
    assert Row(chunk) == "    " + (Items(chunk) + ",");
    SliceShift("    ", Items(chunk) + ",", 6 * i, 6 * i + 4);
    assert (Items(chunk) + ",")[6 * i..6 * i + 4] == Items(chunk)[6 * i..6 * i + 4];
  }

  /** Byte `p` is element `p % 16` of chunk `p / 16`. */
  lemma InChunk(data: seq<byte>, p: nat)
    requires p < |data|
    ensures p / BytesPerLine < ChunkCount(|data|)
    ensures p % BytesPerLine < |Chunk(data, p / BytesPerLine)|
    ensures Chunk(data, p / BytesPerLine)[p % BytesPerLine] == data[p]
  {
  }

  /** Byte `p` of the data is literal `p % 16` of line `p / 16 + 1`. */
  lemma BytePrinted(name: string, data: seq<byte>, p: nat)
    requires p < |data|
    ensures var lines := ArrayLines(name, data);
            && p / BytesPerLine + 1 < |lines|
            && |lines[p / BytesPerLine + 1]| >= 4 + 6 * (p % BytesPerLine) + 4
            && lines[p / BytesPerLine + 1][4 + 6 * (p % BytesPerLine)..4 + 6 * (p % BytesPerLine) + 4] == Hex(data[p])
  {
    var k, i := p / BytesPerLine, p % BytesPerLine;
    InChunk(data, p);
    RowAt(Chunk(data, k), i);
    assert ArrayLines(name, data)[k + 1] == Row(Chunk(data, k));
  }

  /** No literal list contains a line break. */
  lemma {:induction false} ItemsUnbroken(chunk: seq<byte>)
    ensures '\n' !in Items(chunk)
    decreases |chunk|
  {
    if chunk != [] {
      var h := Hex(chunk[0]);
      assert '\n' !in h by {
        assert h == ['0', 'x', LowerHexDigits[chunk[0] / 16], LowerHexDigits[chunk[0] % 16]];
      }
      if |chunk| > 1 {
        ItemsUnbroken(chunk[1..]);
      }
    }
  }

  /** The header holds no line break when the name holds none. */
  lemma HeaderUnbroken(name: string, n: nat)
    requires '\n' !in name
    ensures '\n' !in Header(name, n)
  {
    var digits := Text.NatToString(n);
    assert '\n' !in digits by {
      forall i | 0 <= i < |digits| ensures digits[i] != '\n' {
        assert Text.IsAsciiDigit(digits[i]);
      }
    }
  }

  /** Every line of the declaration is free of line breaks when the name is. */
  lemma LinesUnbroken(name: string, data: seq<byte>)
    requires '\n' !in name
    ensures forall k :: 0 <= k < |ArrayLines(name, data)| ==> '\n' !in ArrayLines(name, data)[k]
  {
    var lines := ArrayLines(name, data);
    forall k | 0 <= k < |lines| ensures '\n' !in lines[k] {
      if k == 0 {
        HeaderUnbroken(name, |data|);
      } else if k < |lines| - 1 {
        ItemsUnbroken(Chunk(data, k - 1));
      }
    }
  }

  /** Splitting the declaration at its line breaks gives back its lines. */
  lemma LinesRecovered(name: string, data: seq<byte>)
    requires '\n' !in name
    ensures Text.SplitOn(FormatByteArray(name, data), '\n') == ArrayLines(name, data)
  {
    LinesUnbroken(name, data);
    Text.SplitJoin(ArrayLines(name, data), '\n');
  }

  /** `format_byte_array_to_c`: the header, then one line per sixteen bytes, then `};`, joined by line breaks. */
  method FormatByteArrayText(name: string, data: seq<byte>) returns (code: string)
    ensures code == FormatByteArray(name, data)
  {
    var cCode := [Header(name, |data|)];
    var i := 0;
    var k := 0;
    while i < |data|
      invariant i == BytesPerLine * k && k <= ChunkCount(|data|)
      invariant k < ChunkCount(|data|) <==> i < |data|
      invariant cCode == [Header(name, |data|)] + seq(k, j requires 0 <= j < k => Row(Chunk(data, j)))
      decreases |data| - i
    {
      var end := if i + BytesPerLine <= |data| then i + BytesPerLine else |data|;
      var chunk := data[i..end];
      assert chunk == Chunk(data, k);
      cCode := cCode + ["    " + Items(chunk) + ","];
      i := i + BytesPerLine;
      k := k + 1;
    }
    cCode := cCode + [Footer];
    assert cCode == ArrayLines(name, data);
    code := Text.JoinOn(cCode, '\n');
  }

  /** `const size_t NAME = N;`, the record count written after each pair of arrays. */
  function SizeConstant(name: string, value: nat): string
  {
    "const size_t " + name + " = " + Text.NatToString(value) + ";"
  }

  /** The count reads back from between ` = ` and `;`. */
  lemma SizeConstantReads(name: string, value: nat)
    ensures var line := SizeConstant(name, value);
            var start := |"const size_t " + name + " = "|;
            && start < |line| && line[|line| - 1] == ';'
            && (forall i :: start <= i < |line| - 1 ==> Text.IsAsciiDigit(line[i]))
            && Text.ParseNat(line[start..|line| - 1]) == value
  {
    var prefix := "const size_t " + name + " = ";
    var digits := Text.NatToString(value);
    var line := SizeConstant(name, value);
    assert line == prefix + digits + ";";
    assert line[|prefix|..|line| - 1] == digits;
    Text.ParseNatToString(value);
  }
}
