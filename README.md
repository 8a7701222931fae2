# PicoType, modelled in Dafny

PicoType is a Zhuyin (Bopomofo) input method for a small microcontroller
keyboard.

This project models three parts of it:

- **The desktop simulator's core** (`main.py`):
  - the keystroke state machine that composes Zhuyin symbols, looks up
    candidate characters, pages through them nine at a time and commits one;
  - the keyboard layout that maps keys to symbols;
  - the rule that turns tone marks into tone digits to form a query code;
  - `ImeEngine.query`, which seeks into the candidate data file and decodes
    UTF-8;
  - the pen advance of `draw_string` and `measure_string`.
- **The offline converter** (`tools/full_hardcode_converter.py`):
  - the charset it renders: the base set plus a fixed ASCII list, sorted;
  - the font half: glyph bitmaps laid end to end in a pool, and one 14-byte
    `<IIBBbbbB` record per glyph, sorted by code point;
  - the IME half: the phonetic table grouped by normalised Zhuyin key,
    de-duplicated, sorted by the key's UTF-8 bytes, laid out as key bytes
    then candidate bytes in one pool, and indexed by 8-byte `<HBxHH`
    records;
  - the C text of the generated header: `PROGMEM` byte arrays, sixteen
    literals to a line, and the record counts.
- **The charset extractor** (`tools/charset_extractor.py`):
  - per-line extraction by first character or by a delimited column;
  - the union over the configured tables, where a missing table is skipped;
  - the empty-set error;
  - the sorted join of the result.

Modules:

| module | what it holds |
|---|---|
| `Wrappers` | `Option`, `Result` |
| `Text` | Python `str.strip`, `str.split()`, `str.split(d)`, `"".join`, decimal text of a count |
| `Utf8` | `str.encode('utf-8')` and a strict decoder, proved inverse to it in both directions |
| `Order` | `sorted` and `list.sort` (a stable insertion sort on a lexicographic key), `list(set)` |
| `Packing` | little-endian `struct.pack` fields, each failing on an out-of-range value |
| `Zhuyin` | tone normalisation of the simulator and the converter, and the key layout |
| `ImeEngine` | `ImeEngine.query` |
| `FontRenderer` | `measure_string` and the pen of `draw_string` |
| `Simulator` | the composition state machine: as functions, and as class `Composer` whose methods update the five state variables in place |
| `GlyphAtlas` | `convert_font_optimized` and the charset assembly |
| `PhoneticDict` | `convert_ime_optimized` |
| `CArray` | `format_byte_array_to_c` and the `const size_t` count lines |
| `CharsetExtractor` | `extract_chars_from_tables` |

I/O is made into parameters:

- A file the program opens is a value of the model:
  - the loaded `.idx` map and `.dat` bytes are a `Dictionary`;
  - a table that may be missing is an `Option` of its lines;
  - a font that may fail to load is an `Option<Font>`.
- The event queue is a sequence of polls, each a sequence of events.
- The font rasteriser is a pair of functions: per-character metrics, and
  the grey level at a point.

Where the code and its documentation differ, the model follows the code:

- The generated struct's comment calls `x_advance` a `uint8_t` and the
  record "16 bytes". The code packs `x_advance` with the signed `b` code
  into a 14-byte record. The model packs it signed and sizes the record at
  14 bytes (`GlyphAtlas.PackRecordRoundTrip`, `GlyphAtlas.FontMapCountIsRecords`).
  "Reads back" in those lemmas means `struct.unpack` with the same format.
  The firmware reads `x_advance` through the declared `uint8_t`.
  `GlyphAtlas.FirmwareAdvance` shows the two readings agree exactly when the
  advance is not negative. A negative advance reads 256 higher.
- The simulator normalises a buffer by testing for the digits `2345`. The
  converter tests `isdigit`. The two keys agree on every buffer the keyboard
  can produce (`Simulator.BufferKeyIsConverterKey`), but they differ on a
  spelling that holds another digit (`Zhuyin.KeysDisagreeOnOtherDigits`).

## Model

| member | source | states |
|---|---|---|
| Text.Strip | tools/full_hardcode_converter.py:160 | the result has no whitespace at either end, and it is empty exactly when every character is whitespace; `Text.StripTrims` adds that it is the line with only end whitespace removed |
| Text.StripUnchanged | tools/charset_extractor.py:57 | a line with no whitespace at either end strips to itself |
| Text.StripTrims | tools/charset_extractor.py:57 | the result is a slice of the line with only whitespace before and after it, so `strip` removes the end whitespace and nothing else |
| Text.StripMargins | tools/full_hardcode_converter.py:160 | whitespace added around a string with clean ends, such as the line break `readlines` keeps, is exactly what `strip` removes |
| Text.StripIdempotent | tools/charset_extractor.py:77 | stripping twice is stripping once |
| Text.Fields | tools/full_hardcode_converter.py:160 | every field of `split()` is non-empty and free of whitespace |
| Text.FieldsOfJoin | tools/full_hardcode_converter.py:160 | `split()` of non-empty, space-free words joined by single spaces gives back the words |
| Text.FieldsOfStrippedJoin | tools/full_hardcode_converter.py:160 | `strip().split()` of such a join also gives back the words |
| Text.FieldsOfPaddedJoin | tools/full_hardcode_converter.py:157-160 | `strip().split()` of such a join with whitespace around it, its line break included, gives back the words |
| Text.SplitOn | tools/charset_extractor.py:71 | `split(d)` returns at least one part, and no part contains `d` |
| Text.JoinSplit | tools/charset_extractor.py:71 | joining the parts of `split(d)` with `d` gives back the line |
| Text.SplitJoin | tools/charset_extractor.py:71 | splitting a `d`-join of `d`-free parts gives back the parts |
| Text.NatToString | tools/full_hardcode_converter.py:193 | the decimal text of a count is non-empty, all ASCII digits, and has no leading zero unless the count is 0 |
| Text.ParseNatToString | tools/full_hardcode_converter.py:213 | the decimal text of a count reads back as that count |
| Text.NatToStringInjective | tools/full_hardcode_converter.py:224 | different counts print differently |
| Text.Codepoints | tools/charset_extractor.py:87 | the key Python compares strings by is their sequence of code points |
| Text.CodepointsInjective | tools/charset_extractor.py:87 | two strings with the same code points are equal |
| Text.ConcatSingles | tools/charset_extractor.py:89 | joining one-character strings gives one character per string, in order |
| Utf8.EncodeChar | tools/full_hardcode_converter.py:169 | a character encodes to 1 to 4 bytes, 1 exactly for ASCII, and the bytes after the first are continuation bytes |
| Utf8.Encode | tools/full_hardcode_converter.py:173 | a string encodes to between one and four bytes per character |
| Utf8.EncodeAppend | tools/full_hardcode_converter.py:173 | the encoding of a concatenation is the concatenation of the encodings |
| Utf8.DecodeFirstEncode | main.py:134 | the decoder reads the first character of an encoding back with its byte count |
| Utf8.DecodeEncode | main.py:134 | decoding an encoded string gives it back |
| Utf8.DecodeSound | main.py:134 | bytes that decode are exactly the encoding of the decoded string |
| Utf8.EncodeInjective | tools/full_hardcode_converter.py:170 | different strings have different encodings, so sorting by key bytes separates keys |
| Order.LexIrreflexive | tools/full_hardcode_converter.py:170 | no key is below itself in Python's sequence order |
| Order.LexTransitive | tools/full_hardcode_converter.py:170 | Python's sequence order is transitive |
| Order.LexTotal | tools/full_hardcode_converter.py:170 | any two different keys are ordered one way or the other |
| Order.LexLessSingleton | tools/full_hardcode_converter.py:144 | one-element keys compare as their elements |
| Order.Insert | tools/full_hardcode_converter.py:170 | inserting adds exactly the element to the multiset |
| Order.SortByKey | tools/full_hardcode_converter.py:170 | sorting is a permutation of its input |
| Order.InsertAscending | tools/full_hardcode_converter.py:170 | inserting into an ascending list keeps it ascending |
| Order.InsertStrict | tools/full_hardcode_converter.py:170 | inserting a new key into a strictly ascending list keeps it strictly ascending |
| Order.SortAscending | tools/full_hardcode_converter.py:144 | the sorted list is ascending by key |
| Order.SortStrict | tools/full_hardcode_converter.py:170 | with distinct keys, the sorted list is strictly ascending |
| Order.InsertLast | tools/full_hardcode_converter.py:144 | an element with a key at least every other goes last, so the sort is stable |
| Order.SortSnoc | tools/full_hardcode_converter.py:144 | sorting a list with one more element inserts that element into the sorted rest |
| Order.SortAscendingIdentity | tools/full_hardcode_converter.py:144 | sorting an already ascending list leaves it unchanged |
| Order.StrictlyAscendingUnique | tools/charset_extractor.py:87 | two strictly ascending lists with the same members are equal, so `sorted(list(s))` does not depend on the order `list` picks |
| Order.ListOf | tools/charset_extractor.py:87 | `list(s)` holds each member of the set exactly once |
| Order.SortedList | tools/charset_extractor.py:87 | `sorted(list(s))` is strictly ascending and holds exactly the members of the set |
| Order.DistinctCardinality | tools/charset_extractor.py:93 | a list without repeats that holds exactly the members of a set is as long as the set |
| Packing.UnsignedLittleEndian | tools/full_hardcode_converter.py:33-34 | a value that fits in `n` bytes reads back from its `n` little-endian bytes |
| Packing.PackUnsigned | tools/full_hardcode_converter.py:182-186 | an unsigned field packs exactly when it fits, into `n` bytes that read back as the value; otherwise it fails naming the field |
| Packing.PackSigned8 | tools/full_hardcode_converter.py:147-150 | a `b` field packs exactly in -128..127, into a byte that reads back (as two's complement) as the value |
| Packing.Then | tools/full_hardcode_converter.py:147-150 | packing two fields in sequence succeeds exactly when both do, and concatenates them |
| Packing.PackEachOk | tools/full_hardcode_converter.py:146-150 | packing a list of records succeeds exactly when every record packs |
| Packing.PackEachLength | tools/full_hardcode_converter.py:146-150 | records that pack to `size` bytes each give `size` times as many bytes |
| Packing.PackEachSlice | tools/full_hardcode_converter.py:146-150 | slice `k` of the packed bytes is the packing of record `k` |
| Packing.PackEachPrefixError | tools/full_hardcode_converter.py:146-150 | the first record that fails to pack decides the error |
| Packing.PackList | tools/full_hardcode_converter.py:145-150 | the packing loop returns the packing of the whole list, or the error of its first failing record |
| Zhuyin.ReplaceChar | main.py:181 | `replace` of one character changes exactly the occurrences of that character |
| Zhuyin.ReplaceTones | main.py:181 | the replace chain maps each tone mark to its digit and leaves every other character unchanged |
| Zhuyin.QueryCode | main.py:181-183 | the query code is the buffer with tone marks turned into digits; "1" is appended exactly when the buffer has no tone mark and no digit 2-5; the code always holds a tone digit 1-5 |
| Zhuyin.ConverterKey | tools/full_hardcode_converter.py:163-164 | the converter's key is the spelling with tone marks turned into digits; "1" is appended exactly when the spelling has no tone mark and no digit; the key always holds a digit |
| Zhuyin.KeysAgree | tools/full_hardcode_converter.py:163-164 | on a spelling without digits, the simulator's query code and the converter's key are the same |
| Zhuyin.FirstToneKey | main.py:181-183 | a spelling without a tone mark, such as ㄧ alone, is filed and queried under the first tone, "ㄧ1" |
| Zhuyin.KeysDisagreeOnOtherDigits | main.py:182 | a spelling with the digit 1 gets "1" appended by the simulator but not by the converter |
| Zhuyin.KeyMapSymbols | main.py:161-168 | every key of the layout types a Zhuyin letter or a tone mark, never a digit |
| Zhuyin.KeyMapHasDigits | main.py:161-168 | every digit key 0-9 is in the layout |
| Zhuyin.NotInLayout | main.py:161-168 | the text of Space, `=`, `-`, `#` and of keys that type nothing is not in the layout |
| Zhuyin.ToneKeys | main.py:167 | the keys 7, 3, 4 and 5 type the second, third, fourth and neutral tone marks |
| ImeEngine.ReadAt | main.py:132-133 | seek-and-read raises exactly when `length` is below -1, as `BufferedReader.read` does; otherwise it returns at most `length` bytes: the slice when it lies in the file, the rest of the file for -1, nothing past the end |
| ImeEngine.Query | main.py:128-134 | a code not in the index gives ""; a negative offset raises, then a length below -1 raises; otherwise the answer is the decoded bytes read, and it is an error exactly when they are not UTF-8 |
| ImeEngine.OnlyMinusOneReadsRest | main.py:132-133 | a stored length of -1 answers the rest of the file, and a stored -2 raises |
| ImeEngine.QueryStored | main.py:128-134 | a code whose entry spans the encoding of `s` in the file is answered with exactly `s` |
| FontRenderer.Advance | main.py:84-96 | a mapped character advances by its width plus one pixel; an unmapped one by the font size (24 by default) plus one |
| FontRenderer.WidthAppend | main.py:84-96 | the width of a concatenation is the sum of the widths |
| FontRenderer.WidthBase | main.py:84-96 | the width of the empty text is 0, and of one character its advance |
| FontRenderer.WidthLowerBound | main.py:84-96 | with non-negative widths, a text is at least one pixel per character wide |
| FontRenderer.MeasureString | main.py:84-96 | the measuring loop returns the sum of the advances |
| FontRenderer.DrawString | main.py:76-83 | the pen moves right by exactly the width `measure_string` reports |
| Simulator.Requery | main.py:181-185 | a successful lookup takes the candidates of the buffer and goes back to the first page; a raised lookup leaves the state as it was at the raise |
| Simulator.InitialInvariant | main.py:155-159 | the starting state satisfies the composition invariant |
| Simulator.SymbolInvariant | main.py:179-185 | typing a symbol keeps the invariant |
| Simulator.BackspaceInvariant | main.py:187-199 | Backspace keeps the invariant |
| Simulator.CommitInvariant | main.py:201-217 | committing a candidate keeps the invariant |
| Simulator.PagingInvariant | main.py:219-225 | paging keeps the invariant |
| Simulator.KeyInvariant | main.py:175-225 | every key press keeps the invariant: the page starts inside the candidates, the candidates are those of the buffer, and the buffer holds only layout symbols |
| Simulator.StepInvariant | main.py:172-225 | every event keeps the invariant |
| Simulator.StepAllInvariant | main.py:172-225 | a whole poll of events keeps the invariant unless a lookup raises |
| Simulator.RunAllInvariant | main.py:171-225 | the main loop keeps the invariant over any number of polls |
| Simulator.BufferKeyIsConverterKey | main.py:181-183 | the buffer is always looked up under the key the converter filed that spelling under |
| Simulator.SymbolTakesPrecedence | main.py:179-185 | a key whose text is in the layout types its symbol whatever key it reports, except Escape |
| Simulator.DigitsNeverSelect | main.py:210-217 | a number key that types its own digit never selects a candidate |
| Simulator.BackspaceBuffer | main.py:187-197 | Backspace drops exactly the last pending symbol, re-queries a non-empty rest, and clears the candidates when nothing is left |
| Simulator.BackspaceEditor | main.py:198-199 | with nothing pending, Backspace drops exactly the last committed character and changes nothing else |
| Simulator.BackspaceNothing | main.py:187-199 | with nothing pending or committed, Backspace does nothing |
| Simulator.SelectCommits | main.py:201-217 | in every state, Space and keys 1-9 commit exactly the candidate at their absolute position and clear the composition, or do nothing when that position is past the end |
| Simulator.Paging | main.py:219-225 | Right and `=` move to the next page only while candidates are left for it; Left and `-` stop at the first page; nothing else changes |
| Simulator.NoCandidatesNoSelect | main.py:201-217 | with no candidates, no select key changes anything |
| Simulator.MissingCodeNoCandidates | main.py:128-130 | a code the index does not hold leaves the buffer pending with no candidates, without an error |
| Simulator.StopEvents | main.py:173-177 | closing the window and Escape clear the running flag and change nothing else |
| Simulator.EscapeFinishesPoll | main.py:171-177 | the events after an Escape in the same poll are still handled; the next poll is not taken |
| Simulator.TypeKey | main.py:179-185 | typing a layout key appends its symbol and shows the candidates of the new buffer from the first page |
| Simulator.PagingScenario | main.py:210-225 | with eleven candidates: forward reaches the second page and no further, back returns to the first, and key 3 on the second page commits nothing |
| Simulator.Composer.constructor | main.py:155-159 | the variables start empty on page 0, with the loop running |
| Simulator.Composer.RefreshCandidates | main.py:181-185 | the in-place lookup updates the variables as `Requery` says |
| Simulator.Composer.TypeSymbol | main.py:179-185 | typing a symbol updates the variables as the symbol event says |
| Simulator.Composer.Backspace | main.py:187-199 | Backspace updates the variables as the Backspace event says |
| Simulator.Composer.CommitAt | main.py:203-208 | committing at a position updates the variables as `Commit` says |
| Simulator.Composer.SelectFirst | main.py:201-208 | Space updates the variables as the Space event says |
| Simulator.Composer.SelectNumber | main.py:210-217 | keys 1-9 update the variables as the number event says |
| Simulator.Composer.NextPage | main.py:219-221 | Right updates the page as the next-page event says |
| Simulator.Composer.PrevPage | main.py:223-225 | Left updates the page as the previous-page event says |
| Simulator.Composer.Stop | main.py:173-177 | only the running flag is cleared |
| Simulator.Composer.Handle | main.py:173-225 | handling one event updates the variables as `Step` specifies, and reports the same error |
| Simulator.Composer.HandlePoll | main.py:172-225 | handling one poll updates the variables as `StepAll` specifies, stopping at a raised error |
| Simulator.Composer.Run | main.py:171-225 | the main loop updates the variables as `RunAll` specifies |
| GlyphAtlas.Trunc | tools/full_hardcode_converter.py:142 | `int()` of a float is its integer part, rounded toward zero |
| GlyphAtlas.GlyphBox | tools/full_hardcode_converter.py:127-135 | a glyph with an area keeps its bounding box; a space without one gets the truncated advance (or a third of the font size) by the font size at the origin; any other empty glyph is skipped |
| GlyphAtlas.Row | tools/full_hardcode_converter.py:136-139 | one row of the image holds `width` grey levels |
| GlyphAtlas.Bitmap | tools/full_hardcode_converter.py:136-139 | the image holds `width * height` grey levels |
| GlyphAtlas.RowsPixel | tools/full_hardcode_converter.py:136-139 | pixel (x, y) is at `y * width + x` and holds the ink at (x + left, y + top), the text being drawn at (-left, -top) |
| GlyphAtlas.Kept | tools/full_hardcode_converter.py:132-135 | the characters that get a glyph all come from the charset and all have a box |
| GlyphAtlas.Layout | tools/full_hardcode_converter.py:123-143 | the loop makes one record per kept character |
| GlyphAtlas.AppendGlyph | tools/full_hardcode_converter.py:136-143 | appending one glyph's bitmap and record keeps the atlas well laid out |
| GlyphAtlas.LayoutWellLaid | tools/full_hardcode_converter.py:123-143 | the bitmaps lie end to end from offset 0, and record `k` describes kept character `k` and points at its bitmap |
| GlyphAtlas.Disjoint | tools/full_hardcode_converter.py:138-139 | no two bitmaps overlap |
| GlyphAtlas.KeptAscending | tools/full_hardcode_converter.py:124 | skipping glyphs keeps a strictly ascending charset strictly ascending |
| GlyphAtlas.RecordsSorted | tools/full_hardcode_converter.py:144 | for a sorted charset, the records are already strictly ascending by code point, and the sort leaves them unchanged |
| GlyphAtlas.PackRecordRoundTrip | tools/full_hardcode_converter.py:34 | a glyph record packs exactly when every field fits `<IIBBbbbB`, into 14 bytes that `struct.unpack` with the same format reads back as the record |
| GlyphAtlas.FirmwareAdvance | tools/full_hardcode_converter.py:147-150 | the firmware's struct, with `x_advance` as `uint8_t` (line 207), reads every field of a packed record as packed except a negative advance, which reads 256 higher; the readings agree exactly when the advance is not negative |
| GlyphAtlas.RecordWidth | tools/full_hardcode_converter.py:147-150 | every glyph record that packs takes 14 bytes |
| GlyphAtlas.RecordSlot | tools/full_hardcode_converter.py:145-150 | slice `k` of the packed font map reads back, through `struct.unpack` with the same format, as record `k` |
| GlyphAtlas.FontMapRoundTrip | tools/full_hardcode_converter.py:145-150 | the font map packs exactly when every record fits, and then `struct.unpack` with the same format reads it back 14 bytes at a time as the records |
| GlyphAtlas.FontMapCountIsRecords | tools/full_hardcode_converter.py:213 | `font_map_count_opt` is the number of records packed |
| GlyphAtlas.RenderGlyphs | tools/full_hardcode_converter.py:123-143 | the rendering loop builds exactly the records and pool `Layout` specifies |
| GlyphAtlas.ConvertFont | tools/full_hardcode_converter.py:119-151 | a font that cannot be loaded gives no data; otherwise the records are sorted and packed, and the result is the packed map with the pool, or the first packing error |
| GlyphAtlas.AssembleCharset | tools/full_hardcode_converter.py:56-62 | an empty base set gives nothing; otherwise the charset holds exactly the base set and the ASCII list, each character once, in code point order |
| PhoneticDict.ColumnsOfJoin | tools/full_hardcode_converter.py:160 | the columns of a line of space-separated words are the words |
| PhoneticDict.ParseJoin | tools/full_hardcode_converter.py:160-164 | a line is used exactly when it has two or more columns and the first is one character; it then gives that character under the normalised key of the second column |
| PhoneticDict.ParseStripped | tools/full_hardcode_converter.py:160 | the whitespace around a line, its line break included, does not change what it contributes |
| PhoneticDict.ParsePaddedJoin | tools/full_hardcode_converter.py:157-164 | a line as `readlines` gives it is used exactly when it has two or more columns and the first is one character, and then gives that character under the normalised key of the second column |
| PhoneticDict.ParseTableLine | tools/full_hardcode_converter.py:157-164 | the line "一 ㄧ" with its line break files 一 under the key "ㄧ1" |
| PhoneticDict.Pairs | tools/full_hardcode_converter.py:159-164 | one parse result per line |
| PhoneticDict.PairsAt | tools/full_hardcode_converter.py:159-164 | parse result `i` is the parse of line `i` |
| PhoneticDict.GroupSnoc | tools/full_hardcode_converter.py:165 | one more line adds its character under its key, or changes nothing when the line is not used |
| PhoneticDict.AddWellFormed | tools/full_hardcode_converter.py:165 | adding a character keeps the keys distinct, each with a candidate list free of repeats |
| PhoneticDict.GroupWellFormed | tools/full_hardcode_converter.py:154-165 | the grouping of any table has distinct keys, each with a candidate list free of repeats |
| PhoneticDict.CharsForMembers | tools/full_hardcode_converter.py:159-165 | a character is listed under a key exactly when some line gives it under that key |
| PhoneticDict.Dedup | tools/full_hardcode_converter.py:165 | removing repeats keeps every character, and each only once |
| PhoneticDict.CharsForSnoc | tools/full_hardcode_converter.py:165 | one more line adds its character to its key's list |
| PhoneticDict.DedupSnoc | tools/full_hardcode_converter.py:165 | a character already present is not appended again |
| PhoneticDict.AddMatches | tools/full_hardcode_converter.py:165 | adding a line's character keeps the grouping equal to the lines' characters per key, first occurrences in order |
| PhoneticDict.GroupIsDedup | tools/full_hardcode_converter.py:154-165 | the grouping holds a key exactly when some line gives that key, and its list is the lines' characters for it, first occurrences in order |
| PhoneticDict.Entries | tools/full_hardcode_converter.py:168-169 | one entry per key |
| PhoneticDict.SortedEntries | tools/full_hardcode_converter.py:170 | the sorted entries rise strictly by key bytes |
| PhoneticDict.SortedEntriesMembers | tools/full_hardcode_converter.py:168-170 | the sorted entries are exactly the keys' UTF-8 bytes with their candidates |
| PhoneticDict.Lay | tools/full_hardcode_converter.py:172-178 | one index record per entry |
| PhoneticDict.HoldsExtend | tools/full_hardcode_converter.py:175-177 | appending to the pool leaves what a record points at unchanged |
| PhoneticDict.HoldsNew | tools/full_hardcode_converter.py:173-178 | a new record points at its key bytes, and right after them at its candidates' UTF-8 |
| PhoneticDict.ChainedSnoc | tools/full_hardcode_converter.py:174-178 | a record starting at the current pool length keeps the records end to end |
| PhoneticDict.HoldsAllExtend | tools/full_hardcode_converter.py:175-177 | appending to the pool leaves what every record points at unchanged |
| PhoneticDict.HoldsAllSnoc | tools/full_hardcode_converter.py:178 | a new record that holds its entry extends a list of records that hold theirs |
| PhoneticDict.AppendEntry | tools/full_hardcode_converter.py:172-178 | one more entry keeps the pool well laid out |
| PhoneticDict.LayLaid | tools/full_hardcode_converter.py:172-178 | entries lie end to end from offset 0, and each record points at its key bytes and then its candidates' UTF-8 |
| PhoneticDict.PackIndexRoundTrip | tools/full_hardcode_converter.py:33 | an index record packs exactly when its fields fit `<HBxHH`, into 8 bytes with a zero pad byte that read back as the record |
| PhoneticDict.IndexWidth | tools/full_hardcode_converter.py:182-186 | every index record that packs takes 8 bytes |
| PhoneticDict.IndexSlot | tools/full_hardcode_converter.py:180-186 | slice `k` of the packed index reads back as record `k` |
| PhoneticDict.IndexRoundTrip | tools/full_hardcode_converter.py:180-186 | the index packs exactly when every record fits, and then reads back 8 bytes at a time as the records |
| PhoneticDict.SmallPoolFits | tools/full_hardcode_converter.py:180-186 | a pool under 64 KiB with keys under 256 bytes always packs |
| PhoneticDict.AddCandidate | tools/full_hardcode_converter.py:165 | the in-place append adds the character under the key as `Add` says |
| PhoneticDict.GroupTable | tools/full_hardcode_converter.py:159-165 | the grouping loop builds exactly the grouping of the parsed lines |
| PhoneticDict.ListEntries | tools/full_hardcode_converter.py:168-169 | the listing loop builds exactly the entries |
| PhoneticDict.LayPool | tools/full_hardcode_converter.py:172-178 | the pool loop builds exactly the records and pool `Lay` specifies |
| PhoneticDict.ConvertIme | tools/full_hardcode_converter.py:153-187 | a missing table gives no data; otherwise the result is the packed index with the pool, or the first packing error |
| PhoneticDict.HoldsLocates | tools/full_hardcode_converter.py:173-178 | a record holding a key's entry leads to bytes that decode to the key and to its candidates |
| PhoneticDict.RecordFinds | tools/full_hardcode_converter.py:180-186 | a packed record that reads back as an entry's record finds that key and its candidates |
| PhoneticDict.CountOfRecords | tools/full_hardcode_converter.py:224 | `8 * n` bytes count as `n` index records |
| PhoneticDict.Stages | tools/full_hardcode_converter.py:167-187 | the converter's result is the packing of the laid-out sorted entries, and every slice reads back as its record |
| PhoneticDict.IndexCountIsKeys | tools/full_hardcode_converter.py:224 | `zhuyin_idx_count_opt` is the number of distinct keys |
| PhoneticDict.FindsEveryKey | tools/full_hardcode_converter.py:154-187 | every key of the table can be found through some index record, with its candidates |
| PhoneticDict.EveryRecordIsAKey | tools/full_hardcode_converter.py:154-187 | every index record leads to a key of the table and its candidates |
| PhoneticDict.IndexSorted | tools/full_hardcode_converter.py:170-187 | the keys the index records point at rise strictly in byte order, so a binary search over the index is sound |
| CArray.Hex | tools/full_hardcode_converter.py:196 | a literal is four characters starting `0x` |
| CArray.HexRoundTrip | tools/full_hardcode_converter.py:196 | the two hexadecimal digits of a literal read back as its byte |
| CArray.ItemsLength | tools/full_hardcode_converter.py:196 | a line's literals take six characters each, except the last, which takes four |
| CArray.ItemsAt | tools/full_hardcode_converter.py:196 | literal `k` of a line sits at character `6 * k` |
| CArray.ItemsSeparated | tools/full_hardcode_converter.py:196 | each literal but the last is followed by `", "` |
| CArray.Chunk | tools/full_hardcode_converter.py:194-195 | every chunk holds 1 to 16 bytes |
| CArray.ArrayShape | tools/full_hardcode_converter.py:192-198 | the declaration has the header with the name and length, one line per started block of 16 bytes (indented, ending in a comma), and `};` |
| CArray.RowAt | tools/full_hardcode_converter.py:196 | literal `i` of a line follows the four-space indent, six characters to a literal |
| CArray.InChunk | tools/full_hardcode_converter.py:194-195 | byte `p` is byte `p % 16` of chunk `p / 16` |
| CArray.BytePrinted | tools/full_hardcode_converter.py:192-198 | byte `p` of the data is printed as literal `p % 16` of line `p / 16 + 1` |
| CArray.ItemsUnbroken | tools/full_hardcode_converter.py:196 | no line of literals contains a line break |
| CArray.HeaderUnbroken | tools/full_hardcode_converter.py:193 | the header holds no line break when the name holds none |
| CArray.LinesUnbroken | tools/full_hardcode_converter.py:193-197 | no line of the declaration contains a line break when the name holds none |
| CArray.LinesRecovered | tools/full_hardcode_converter.py:198 | splitting the declaration at its line breaks gives back its lines |
| CArray.FormatByteArrayText | tools/full_hardcode_converter.py:192-198 | the formatting loop returns exactly the joined lines of the declaration |
| CArray.SizeConstantReads | tools/full_hardcode_converter.py:213 | the count line ends in `;` and its digits read back as the count |
| CharsetExtractor.StripFirst | tools/charset_extractor.py:57-65 | the first character of a stripped non-blank line is the line's first non-whitespace character |
| CharsetExtractor.Extract | tools/charset_extractor.py:56-77 | a blank line gives nothing; the first-character rule gives exactly the first non-whitespace character of a non-blank line; a split column gives a stripped string without the delimiter |
| CharsetExtractor.StripWithin | tools/charset_extractor.py:77 | stripping never adds characters |
| CharsetExtractor.ExtractColumns | tools/charset_extractor.py:67-77 | for a line made of `d`-separated parts, the split rule gives the stripped chosen part exactly when that part exists and is non-empty |
| CharsetExtractor.ExtractStripped | tools/charset_extractor.py:57 | the whitespace around a line, its line break included, does not change what it gives |
| CharsetExtractor.ExtractPadded | tools/charset_extractor.py:51-77 | a line as `readlines` gives it, delimited columns with whitespace around them, gives the stripped chosen column exactly when that column exists and is non-empty |
| CharsetExtractor.ExtractTabbedLine | tools/charset_extractor.py:17-22 | the line "1", tab, "一", line break, of the tab-separated table gives 一 from its second column |
| CharsetExtractor.Extracted | tools/charset_extractor.py:56 | one extraction result per line |
| CharsetExtractor.ExtractedSnoc | tools/charset_extractor.py:56 | one more line adds its extraction result |
| CharsetExtractor.ExtractedAt | tools/charset_extractor.py:56 | extraction result `j` is the extraction of line `j` |
| CharsetExtractor.GatheredSnoc | tools/charset_extractor.py:75-77 | one more result adds its string to the set, if it has one |
| CharsetExtractor.GatheredMembers | tools/charset_extractor.py:75-77 | a string is in the set exactly when some line gave it |
| CharsetExtractor.LinesStringsMembers | tools/charset_extractor.py:56-77 | the strings of a table are exactly those some line of it gives |
| CharsetExtractor.UnionMembers | tools/charset_extractor.py:45-77 | a string is in the union exactly when some table gives it |
| CharsetExtractor.TableSets | tools/charset_extractor.py:45-54 | one set of strings per configured table, empty for a missing one |
| CharsetExtractor.CollectedMembers | tools/charset_extractor.py:45-77 | the collected set holds a string exactly when some line of some present table gives it |
| CharsetExtractor.AddLines | tools/charset_extractor.py:56-77 | the line loop adds exactly the table's strings to the set |
| CharsetExtractor.NextLine | tools/charset_extractor.py:56-77 | one more line adds its string, if it has one |
| CharsetExtractor.Gather | tools/charset_extractor.py:42-77 | the table loop, skipping missing files, builds exactly the collected set |
| CharsetExtractor.ExtractChars | tools/charset_extractor.py:79-93 | an empty set gives no output; otherwise the output is the join of the set's strings, sorted strictly by code points, each once, as many as the set holds |
| CharsetExtractor.NoRepeats | tools/charset_extractor.py:87 | a strictly ascending list has no repeats |
| CharsetExtractor.SingleCharOutput | tools/charset_extractor.py:89 | when every string is one character, the output has one character per string and the characters rise strictly |

## Left out

- The pygame window, drawing, colours and the frame clock are left out. The model keeps only the state the key handler changes and the pen advance.
- The pixel loop of `get_char_surface` (main.py:58-74) is left out. Only the width of the surface it returns enters the model.
- Loading the `.map`, `.idx` and `.dat` files and parsing their JSON are left out. The loaded map and bytes are parameters.
- Opening and writing files are left out, along with the messages the tools print. That includes the count printed on line 93 of the extractor. Missing files are modelled as `None`.
- The AUTO charset mode (`extract_charset_from_ime`) and `extract_charset_from_file` are left out. The model starts from the base set they would return. These functions are not part of this model because the build uses a charset file that is already extracted.
- The `getsize` fallback for old PIL versions (tools/full_hardcode_converter.py:129-131) is left out. The font gives metrics directly.
- PIL's rasteriser is a parameter: a grey-level function over points.
- The header file's struct declarations and its `reinterpret_cast` lines are left out, because they are fixed text. The model covers the byte arrays and the two count lines.
- The firmware's binary-search reader of the generated index is not part of this model. `PhoneticDict.IndexSorted` states the ordering it relies on.
- Only `IME_SOURCE_FILES[0]` is read by `convert_ime_optimized`, and the model does the same.
- `list.sort` is modelled functionally, as a stable sort applied to a sequence, rather than in place.
- `Zhuyin.ConverterKey`: Python's `isdigit` also accepts non-ASCII digits. The model reads it as the ASCII digits only.
- `CharsetExtractor.Extract`: the split delimiter is modelled as a single character, as every configured table uses. The configured table list (tools/charset_extractor.py:6-29) is a parameter.
- `CharsetExtractor.ExtractChars`:
  - A split column made only of whitespace passes the `if char_to_add` test and adds `""` to the set.
  - The model keeps this. That string counts toward the set's size but adds nothing to the joined output.
- `Packing.PackUnsigned` and `Packing.PackSigned8`: a value out of range for `struct.pack` is a `Result` error rather than a precondition, because the source lets `struct.error` propagate.
- `Simulator.Composer.Handle`: the exception a lookup raises ends the program.
  - The model returns it as a value, together with the state at the raise.
  - `Simulator.StepAll` and `Simulator.RunAll` stop at it.
