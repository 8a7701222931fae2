/**
 * The phonetic half of the converter (`convert_ime_optimized`): the lines of
 * the phonetic table are grouped into candidate lists per normalised key,
 * the keys are sorted by their UTF-8 bytes, each key and its candidates are
 * appended to one pool, and an 8-byte index record `<HBxHH` says where.
 */
module PhoneticDict {
  import opened Wrappers
  import opened Utf8
  import opened Packing
  import Text
  import Zhuyin
  import Order

  /** `struct.calcsize("<HBxHH")`: 2 + 1 + 1 (pad) + 2 + 2 bytes. */
  const IndexRecordSize: nat := 8

  /** `line.strip().split()`. */
  function Columns(line: string): seq<string>
  {
    Text.Fields(Text.Strip(line))
  }

  /** A line written as non-empty, whitespace-free columns separated by single spaces has those columns. */
  lemma ColumnsOfJoin(ws: seq<string>)
    requires forall k :: 0 <= k < |ws| ==> ws[k] != [] && Text.SpaceFree(ws[k])
    ensures Columns(Text.JoinWithSpace(ws)) == ws
  {
    Text.FieldsOfStrippedJoin(ws);
  }

  /**
   * What a line's columns contribute: when there are at least two and the
   * first is one character, that character under the key its spelling (the
   * second column) normalises to.
   */
  function ParseColumns(parts: seq<string>): Option<(string, char)>
  {
    if |parts| >= 2 && |parts[0]| == 1 then Some((Zhuyin.ConverterKey(parts[1]), parts[0][0])) else None
  }

  /** What one line of the table contributes. */
  function ParseLine(line: string): Option<(string, char)>
  {
    ParseColumns(Columns(line))
  }

  /**
   * A line written as non-empty, whitespace-free columns contributes
   * exactly when it has at least two columns and the first is one
   * character, and then that character under its spelling's key.
   */
  lemma ParseJoin(ws: seq<string>)
    requires forall k :: 0 <= k < |ws| ==> ws[k] != [] && Text.SpaceFree(ws[k])
    ensures ParseLine(Text.JoinWithSpace(ws)).Some? <==> |ws| >= 2 && |ws[0]| == 1
    ensures ParseLine(Text.JoinWithSpace(ws)).Some? ==>
              ParseLine(Text.JoinWithSpace(ws)).value == (Zhuyin.ConverterKey(ws[1]), ws[0][0])
  {
    ColumnsOfJoin(ws);
  }

  /** A line is stripped before it is split, so the whitespace around it, its line break included, changes nothing. */
  lemma ParseStripped(line: string)
    ensures ParseLine(line) == ParseLine(Text.Strip(line))
  {
    Text.StripIdempotent(line);
  }

  /**
   * A line as `readlines` gives it, columns with whitespace (such as the line
   * break) around them, contributes exactly when it has at least two columns
   * and the first is one character, and then that character under its
   * spelling's key.
   */
  lemma ParsePaddedJoin(pre: string, ws: seq<string>, post: string)
    requires forall k :: 0 <= k < |pre| ==> Text.IsSpace(pre[k])
    requires forall k :: 0 <= k < |post| ==> Text.IsSpace(post[k])
    requires forall k :: 0 <= k < |ws| ==> ws[k] != [] && Text.SpaceFree(ws[k])
    ensures ParseLine(pre + Text.JoinWithSpace(ws) + post).Some? <==> |ws| >= 2 && |ws[0]| == 1
    ensures ParseLine(pre + Text.JoinWithSpace(ws) + post).Some? ==>
              ParseLine(pre + Text.JoinWithSpace(ws) + post).value == (Zhuyin.ConverterKey(ws[1]), ws[0][0])
  {
    Text.FieldsOfPaddedJoin(pre, ws, post);
  }

  /** The table line "一 ㄧ", line break included, files 一 under the key ㄧ with the first tone appended. */
  lemma ParseTableLine()
    ensures ParseLine("\U{4E00} \U{3127}\n") == Some(("\U{3127}1", '\U{4E00}'))
  {
    var ws := ["\U{4E00}", "\U{3127}"];
    var line := "" + Text.JoinWithSpace(ws) + "\n";
    assert line == "\U{4E00} \U{3127}\n" by {
      assert Text.JoinWithSpace(ws) == "\U{4E00} \U{3127}";
    }
    assert forall k :: 0 <= k < |ws| ==> ws[k] != [] && Text.SpaceFree(ws[k]) by {
      assert Text.SpaceFree(ws[0]) && Text.SpaceFree(ws[1]);
    }
    assert Text.IsSpace("\n"[0]);
    ParsePaddedJoin("", ws, "\n");
    Zhuyin.FirstToneKey();
  }

  /** The `defaultdict(list)`: keys in the order they were first met, and each key's characters. */
  datatype Groups = Groups(keys: seq<string>, candidates: map<string, string>)

  /** One line's character added to its key's list, unless already there. */
  function Add(g: Groups, key: string, c: char): Groups
  {
    if key in g.candidates then
      if c in g.candidates[key] then g else Groups(g.keys, g.candidates[key := g.candidates[key] + [c]])
    else Groups(g.keys + [key], g.candidates[key := [c]])
  }

  /** What each line of the table contributes, line by line. */
  function Pairs(lines: seq<string>): (ps: seq<Option<(string, char)>>)
    ensures |ps| == |lines|
    decreases |lines|
  {
    if lines == [] then [] else Pairs(lines[..|lines| - 1]) + [ParseLine(lines[|lines| - 1])]
  }

  /** Entry `i` of the contributions is what line `i` contributes. */
  lemma {:induction false} PairsAt(lines: seq<string>, i: nat)
    requires i < |lines|
    ensures Pairs(lines)[i] == ParseLine(lines[i])
    decreases |lines|
  {
    if i < |lines| - 1 {
      PairsAt(lines[..|lines| - 1], i);
    }
  }

  /** The grouping loop over the contributions of the lines, in order. */
  function Group(ps: seq<Option<(string, char)>>): Groups
    decreases |ps|
  {
    if ps == [] then Groups([], map[])
    else
      var g := Group(ps[..|ps| - 1]);
      match ps[|ps| - 1]
      case None => g
      case Some((key, c)) => Add(g, key, c)
  }

  /** One more line adds its contribution, if any, to the grouping of the lines before it. */
  lemma GroupSnoc(ps: seq<Option<(string, char)>>, x: Option<(string, char)>)
    ensures Group(ps + [x]) == if x.Some? then Add(Group(ps), x.value.0, x.value.1) else Group(ps)
  {
    assert (ps + [x])[..|ps|] == ps;
  }

  /** Keys listed once each, exactly the keys of the map, each with a non-empty list of distinct characters. */
  predicate WellFormed(g: Groups)
  {
    && Order.Distinct(g.keys)
    && (forall key :: key in g.candidates ==> key in g.keys)
    && (forall key :: key in g.keys ==> key in g.candidates)
    && (forall key :: key in g.candidates ==> g.candidates[key] != [] && Order.Distinct(g.candidates[key]))
  }

  lemma AddWellFormed(g: Groups, key: string, c: char)
    requires WellFormed(g)
    ensures WellFormed(Add(g, key, c))
  {
    var g' := Add(g, key, c);
    if key in g.candidates {
      if c !in g.candidates[key] {
        var cs := g.candidates[key] + [c];
        assert Order.Distinct(cs) by {
          forall i, j | 0 <= i < j < |cs| ensures cs[i] != cs[j] {
            if j == |cs| - 1 {
              assert cs[i] in g.candidates[key];
            }
          }
        }
      }
    } else {
      assert key !in g.keys;
      assert Order.Distinct(g'.keys) by {
        forall i, j | 0 <= i < j < |g'.keys| ensures g'.keys[i] != g'.keys[j] {
          if j == |g'.keys| - 1 {
            assert g'.keys[i] in g.keys;
          }
        }
      }
      assert forall k :: k in g'.keys <==> k in g.keys || k == key;
    }
  }

  lemma {:induction false} GroupWellFormed(ps: seq<Option<(string, char)>>)
    ensures WellFormed(Group(ps))
    decreases |ps|
  {
    if ps != [] {
      GroupWellFormed(ps[..|ps| - 1]);
      match ps[|ps| - 1]
      case None =>
      case Some((key, c)) => AddWellFormed(Group(ps[..|ps| - 1]), key, c);
    }
  }

  /** The characters the lines give `key`, in line order, repeats included. */
  function CharsFor(ps: seq<Option<(string, char)>>, key: string): string
    decreases |ps|
  {
    if ps == [] then []
    else
      var here := match ps[|ps| - 1]
        case Some((k, c)) => if k == key then [c] else []
        case None => [];
      CharsFor(ps[..|ps| - 1], key) + here
  }

  /** A character is among those the lines give `key` exactly when some line pairs them. */
  lemma {:induction false} CharsForMembers(ps: seq<Option<(string, char)>>, key: string, c: char)
    ensures c in CharsFor(ps, key) <==> exists i :: 0 <= i < |ps| && ps[i] == Some((key, c))
    decreases |ps|
  {
    if ps != [] {
      var p := ps[..|ps| - 1];
      CharsForMembers(p, key, c);
      assert forall i :: 0 <= i < |p| ==> p[i] == ps[i];
      assert c in CharsFor(ps, key) <==> c in CharsFor(p, key) || ps[|ps| - 1] == Some((key, c));
    }
  }

  /** The first occurrence of each character of `s`, in order. */
  function Dedup(s: string): (r: string)
    ensures Order.Distinct(r)
    ensures forall c :: c in r <==> c in s
    decreases |s|
  {
    if s == [] then []
    else
      var p := s[..|s| - 1];
      var c := s[|s| - 1];
      var d := Dedup(p);
      assert forall x :: x in s <==> x in p || x == c by {
        assert s == p + [c];
      }
      if c in d then d
      else
        assert Order.Distinct(d + [c]) by {
          forall i, j | 0 <= i < j < |d| + 1 ensures (d + [c])[i] != (d + [c])[j] {
            if j == |d| {
              assert (d + [c])[i] == d[i];
            }
          }
        }
        d + [c]
  }

  /** The contribution of one more line to the characters of `key`. */
  lemma CharsForSnoc(ps: seq<Option<(string, char)>>, x: Option<(string, char)>, key: string)
    ensures CharsFor(ps + [x], key) == CharsFor(ps, key) + (if x.Some? && x.value.0 == key then [x.value.1] else [])
  {
    assert (ps + [x])[..|ps|] == ps;
  }

  /** Keeping first occurrences of `s + [c]` adds `c` exactly when it is new. */
  lemma DedupSnoc(s: string, c: char)
    ensures Dedup(s + [c]) == if c in s then Dedup(s) else Dedup(s) + [c]
  {
    assert (s + [c])[..|s|] == s;
  }

  /** The map keeps, for every key, the first occurrences of the characters the lines give it. */
  ghost predicate MatchesLines(g: Groups, ps: seq<Option<(string, char)>>)
  {
    && (forall key :: key in g.candidates <==> CharsFor(ps, key) != [])
    && (forall key :: key in g.candidates ==> g.candidates[key] == Dedup(CharsFor(ps, key)))
  }

  lemma AddMatches(g: Groups, ps: seq<Option<(string, char)>>, key: string, c: char)
    requires MatchesLines(g, ps)
    ensures MatchesLines(Add(g, key, c), ps + [Some((key, c))])
  {
    var x := Some((key, c));
    var g' := Add(g, key, c);
    var ps' := ps + [x];
    forall k | k != key
      ensures (k in g'.candidates <==> CharsFor(ps', k) != [])
      ensures k in g'.candidates ==> g'.candidates[k] == Dedup(CharsFor(ps', k))
    {
      CharsForSnoc(ps, x, k);
      assert CharsFor(ps', k) == CharsFor(ps, k);
      assert k in g'.candidates <==> k in g.candidates;
      if k in g.candidates {
        assert g'.candidates[k] == g.candidates[k];
      }
    }
    CharsForSnoc(ps, x, key);
    var s := CharsFor(ps, key);
    assert CharsFor(ps', key) == s + [c];
    DedupSnoc(s, c);
    if key in g.candidates {
      assert g.candidates[key] == Dedup(s);
    } else {
      assert s == [];
      DedupSnoc([], c);
      assert [] + [c] == [c];
    }
    assert key in g'.candidates && g'.candidates[key] == Dedup(CharsFor(ps', key));
  }

  /**
   * Whatever order the lines come in, key `k` is in the map exactly when
   * some line gives it a character, and its list is the characters the lines
   * give it, each once, in the order first met.
   */
  lemma {:induction false} GroupIsDedup(ps: seq<Option<(string, char)>>)
    ensures MatchesLines(Group(ps), ps)
    decreases |ps|
  {
    if ps != [] {
      var p := ps[..|ps| - 1];
      GroupIsDedup(p);
      assert ps == p + [ps[|ps| - 1]];
      match ps[|ps| - 1]
      case None =>
        forall k ensures CharsFor(ps, k) == CharsFor(p, k) {
          CharsForSnoc(p, None, k);
        }
      case Some((key, c)) =>
        AddMatches(Group(p), p, key, c);
    }
  }

  /** One entry of `temp_list`: a key's UTF-8 bytes and its candidate characters. */
  datatype Entry = Entry(keyBytes: seq<byte>, candidates: string)

  /** Entries are sorted by their key bytes, compared as Python compares `bytes`. */
  function EntryKey(e: Entry): seq<int>
  {
    e.keyBytes
  }

  /** The entries in the map's own key order (`ime_map.items()`). */
  function Entries(g: Groups): (es: seq<Entry>)
    requires forall key :: key in g.keys ==> key in g.candidates
    ensures |es| == |g.keys|
  {
    seq(|g.keys|, i requires 0 <= i < |g.keys| => Entry(Encode(g.keys[i]), g.candidates[g.keys[i]]))
  }

  /** The sorted entries are in strictly increasing byte order of their keys, so a binary search can find them. */
  lemma SortedEntries(g: Groups)
    requires WellFormed(g)
    ensures Order.StrictlyAscending(Order.SortByKey(Entries(g), EntryKey), EntryKey)
  {
    var es := Entries(g);
    forall i, j | 0 <= i < j < |es| ensures EntryKey(es[i]) != EntryKey(es[j]) {
      if EntryKey(es[i]) == EntryKey(es[j]) {
        EncodeInjective(g.keys[i], g.keys[j]);
      }
    }
    Order.SortStrict(es, EntryKey);
  }

  /** The sorted entries are the map's keys with their candidates. */
  lemma SortedEntriesMembers(g: Groups, e: Entry)
    requires WellFormed(g)
    ensures e in Order.SortByKey(Entries(g), EntryKey) <==>
              exists key :: key in g.keys && e == Entry(Encode(key), g.candidates[key])
  {
    var es := Entries(g);
    var sorted := Order.SortByKey(es, EntryKey);
    assert e in sorted <==> e in multiset(sorted);
    assert e in es <==> e in multiset(es);
    if e in es {
      var i :| 0 <= i < |es| && es[i] == e;
      assert g.keys[i] in g.keys;
    }
    if exists key :: key in g.keys && e == Entry(Encode(key), g.candidates[key]) {
      var key :| key in g.keys && e == Entry(Encode(key), g.candidates[key]);
      var i :| 0 <= i < |g.keys| && g.keys[i] == key;
      assert es[i] == e;
    }
  }

  /** The index record of one pool entry (before packing). */
  datatype IndexRecord = IndexRecord(keyOffset: int, keyLen: int, dataOffset: int, dataLen: int)

  function RecordEnd(r: IndexRecord): int
  {
    r.dataOffset + r.dataLen
  }

  datatype Pool = Pool(records: seq<IndexRecord>, bytes: seq<byte>)

  /** The pool loop: each key's bytes, then its candidates' UTF-8, appended in entry order. */
  function Lay(es: seq<Entry>): (p: Pool)
    ensures |p.records| == |es|
    decreases |es|
  {
    if es == [] then Pool([], [])
    else
      var p := Lay(es[..|es| - 1]);
      var e := es[|es| - 1];
      var data := Encode(e.candidates);
      Pool(p.records + [IndexRecord(|p.bytes|, |e.keyBytes|, |p.bytes| + |e.keyBytes|, |data|)], p.bytes + e.keyBytes + data)
  }

  /** Record `r` points at entry `e`: its key bytes, then right after them its candidates' UTF-8. */
  predicate Holds(r: IndexRecord, e: Entry, pool: seq<byte>)
  {
    && 0 <= r.keyOffset
    && r.keyLen == |e.keyBytes|
    && r.dataOffset == r.keyOffset + r.keyLen
    && r.dataLen == |Encode(e.candidates)|
    && RecordEnd(r) <= |pool|
    && pool[r.keyOffset..r.dataOffset] == e.keyBytes
    && pool[r.dataOffset..RecordEnd(r)] == Encode(e.candidates)
  }

  /** The entries lie end to end: the first at 0, each next where the one before ends, the last at the end of the pool. */
  predicate Chained(records: seq<IndexRecord>, poolLength: int)
  {
    && (records == [] ==> poolLength == 0)
    && (records != [] ==> records[0].keyOffset == 0 && RecordEnd(records[|records| - 1]) == poolLength)
    && (forall k :: 0 < k < |records| ==> records[k].keyOffset == RecordEnd(records[k - 1]))
  }

  predicate Laid(es: seq<Entry>, p: Pool)
  {
    && |p.records| == |es|
    && Chained(p.records, |p.bytes|)
    && (forall k :: 0 <= k < |es| ==> Holds(p.records[k], es[k], p.bytes))
  }

  /** Appending to the pool leaves what a record points at unchanged. */
  lemma HoldsExtend(q: IndexRecord, e: Entry, pool: seq<byte>, extra: seq<byte>)
    requires Holds(q, e, pool)
    ensures Holds(q, e, pool + extra)
  {
    assert (pool + extra)[q.keyOffset..q.dataOffset] == pool[q.keyOffset..q.dataOffset];
    assert (pool + extra)[q.dataOffset..RecordEnd(q)] == pool[q.dataOffset..RecordEnd(q)];
  }

  /** The new entry's record points at its key and candidates right after the old pool. */
  lemma HoldsNew(pool: seq<byte>, e: Entry)
    ensures var data := Encode(e.candidates);
            Holds(IndexRecord(|pool|, |e.keyBytes|, |pool| + |e.keyBytes|, |data|), e, pool + e.keyBytes + data)
  {
    var data := Encode(e.candidates);
    var bytes := pool + e.keyBytes + data;
    assert bytes[|pool|..|pool| + |e.keyBytes|] == e.keyBytes;
    assert bytes[|pool| + |e.keyBytes|..|bytes|] == data;
  }

  /** A record placed where the chain ends extends the chain to its own end. */
  lemma ChainedSnoc(records: seq<IndexRecord>, poolLength: int, r: IndexRecord)
    requires Chained(records, poolLength)
    requires r.keyOffset == poolLength
    ensures Chained(records + [r], RecordEnd(r))
  {
    var rs := records + [r];
    forall k | 0 < k < |rs| ensures rs[k].keyOffset == RecordEnd(rs[k - 1]) {
      if k < |records| {
        assert rs[k] == records[k] && rs[k - 1] == records[k - 1];
      }
    }
  }

  /** Appending to the pool leaves what every record points at unchanged. */
  lemma HoldsAllExtend(records: seq<IndexRecord>, es: seq<Entry>, pool: seq<byte>, extra: seq<byte>)
    requires |records| == |es|
    requires forall k :: 0 <= k < |es| ==> Holds(records[k], es[k], pool)
    ensures forall k :: 0 <= k < |es| ==> Holds(records[k], es[k], pool + extra)
  {
    forall k | 0 <= k < |es| ensures Holds(records[k], es[k], pool + extra) {
      HoldsExtend(records[k], es[k], pool, extra);
    }
  }

  /** One more record pointing at one more entry. */
  lemma HoldsAllSnoc(records: seq<IndexRecord>, es: seq<Entry>, pool: seq<byte>, r: IndexRecord, e: Entry)
    requires |records| == |es|
    requires forall k :: 0 <= k < |es| ==> Holds(records[k], es[k], pool)
    requires Holds(r, e, pool)
    ensures forall k :: 0 <= k < |es| + 1 ==> Holds((records + [r])[k], (es + [e])[k], pool)
  {
    forall k | 0 <= k < |es| + 1 ensures Holds((records + [r])[k], (es + [e])[k], pool) {
      if k < |es| {
        assert (records + [r])[k] == records[k] && (es + [e])[k] == es[k];
      }
    }
  }

  lemma AppendEntry(es: seq<Entry>, p: Pool, e: Entry)
    requires Laid(es, p)
    ensures var data := Encode(e.candidates);
            Laid(es + [e], Pool(p.records + [IndexRecord(|p.bytes|, |e.keyBytes|, |p.bytes| + |e.keyBytes|, |data|)],
                                p.bytes + e.keyBytes + data))
  {
    var data := Encode(e.candidates);
    var r := IndexRecord(|p.bytes|, |e.keyBytes|, |p.bytes| + |e.keyBytes|, |data|);
    var bytes := p.bytes + e.keyBytes + data;
    HoldsNew(p.bytes, e);
    assert bytes == p.bytes + (e.keyBytes + data);
    HoldsAllExtend(p.records, es, p.bytes, e.keyBytes + data);
    HoldsAllSnoc(p.records, es, bytes, r, e);
    ChainedSnoc(p.records, |p.bytes|, r);
    assert RecordEnd(r) == |bytes|;
  }

  /** What the pool loop leaves: record `k` points at entry `k`, the entries end to end. */
  lemma {:induction false} LayLaid(es: seq<Entry>)
    ensures Laid(es, Lay(es))
    decreases |es|
  {
    if es != [] {
      var init, e := es[..|es| - 1], es[|es| - 1];
      var p := Lay(init);
      var data := Encode(e.candidates);
      LayLaid(init);
      AppendEntry(init, p, e);
      assert init + [e] == es;
      assert Lay(es) == Pool(p.records + [IndexRecord(|p.bytes|, |e.keyBytes|, |p.bytes| + |e.keyBytes|, |data|)],
                             p.bytes + e.keyBytes + data);
    }
  }

  /** The ranges of `<HBxHH`: 16-bit offsets and data length, an 8-bit key length. */
  predicate IndexFits(r: IndexRecord)
  {
    && 0 <= r.keyOffset < 0x1_0000 && 0 <= r.keyLen < 256
    && 0 <= r.dataOffset < 0x1_0000 && 0 <= r.dataLen < 0x1_0000
  }

  /** `struct.pack("<HBxHH", ...)` of one record; `x` is a zero byte. */
  function PackIndex(r: IndexRecord): Result<seq<byte>, PackError>
  {
    Then(Then(Then(Then(
      PackUnsigned("key_offset", r.keyOffset, 2),
      PackUnsigned("key_len", r.keyLen, 1)),
      Ok([0])),
      PackUnsigned("data_offset", r.dataOffset, 2)),
      PackUnsigned("data_len", r.dataLen, 2))
  }

  /** How the firmware reads an 8-byte index record back. */
  function UnpackIndex(b: seq<byte>): IndexRecord
    requires |b| == IndexRecordSize
  {
    IndexRecord(Unsigned(b[0..2]), b[2], Unsigned(b[4..6]), Unsigned(b[6..8]))
  }

  /** A record packs exactly when its fields fit, into 8 bytes with a zero pad that read back as the record. */
  lemma PackIndexRoundTrip(r: IndexRecord)
    ensures PackIndex(r).Ok? <==> IndexFits(r)
    ensures PackIndex(r).Ok? ==>
              |PackIndex(r).value| == IndexRecordSize && PackIndex(r).value[3] == 0
              && UnpackIndex(PackIndex(r).value) == r
  {
    assert Pow256(1) == 256;
    assert Pow256(2) == 0x1_0000;
    if PackIndex(r).Ok? {
      var b := PackIndex(r).value;
      assert b[0..2] == PackUnsigned("key_offset", r.keyOffset, 2).value;
      assert [b[2]] == PackUnsigned("key_len", r.keyLen, 1).value;
      assert Unsigned([b[2]]) == b[2];
      assert b[4..6] == PackUnsigned("data_offset", r.dataOffset, 2).value;
      assert b[6..8] == PackUnsigned("data_len", r.dataLen, 2).value;
    }
  }

  /** Every index record that packs takes 8 bytes. */
  lemma IndexWidth(rs: seq<IndexRecord>)
    ensures FixedWidth(rs, PackIndex, IndexRecordSize)
  {
    forall k | 0 <= k < |rs| ensures PackIndex(rs[k]).Ok? ==> |PackIndex(rs[k]).value| == IndexRecordSize {
      PackIndexRoundTrip(rs[k]);
    }
  }

  /** Slice `k` of the packed list reads back as `rs[k]`. */
  lemma IndexSlot(rs: seq<IndexRecord>, k: nat)
    requires PackEach(rs, PackIndex).Ok? && k < |rs|
    ensures |PackEach(rs, PackIndex).value| == IndexRecordSize * |rs| && IndexRecordSize * k + IndexRecordSize <= IndexRecordSize * |rs|
    ensures UnpackIndex(PackEach(rs, PackIndex).value[IndexRecordSize * k..IndexRecordSize * k + IndexRecordSize]) == rs[k]
  {
    IndexWidth(rs);
    PackEachSlice(rs, PackIndex, IndexRecordSize, k);
    PackIndexRoundTrip(rs[k]);
  }

  /**
   * The packed index packs exactly when every record fits, and then it is
   * `8 * n` bytes whose `k`-th slice of 8 reads back as record `k`.
   */
  lemma IndexRoundTrip(rs: seq<IndexRecord>)
    ensures PackEach(rs, PackIndex).Ok? <==> forall k :: 0 <= k < |rs| ==> IndexFits(rs[k])
    ensures PackEach(rs, PackIndex).Ok? ==>
              |PackEach(rs, PackIndex).value| == IndexRecordSize * |rs|
              && forall k :: 0 <= k < |rs| ==>
                   UnpackIndex(PackEach(rs, PackIndex).value[IndexRecordSize * k..IndexRecordSize * k + IndexRecordSize]) == rs[k]
  {
    PackEachOk(rs, PackIndex);
    forall k | 0 <= k < |rs| ensures PackIndex(rs[k]).Ok? <==> IndexFits(rs[k]) {
      PackIndexRoundTrip(rs[k]);
    }
    if PackEach(rs, PackIndex).Ok? {
      IndexWidth(rs);
      PackEachLength(rs, PackIndex, IndexRecordSize);
      forall k | 0 <= k < |rs|
        ensures UnpackIndex(PackEach(rs, PackIndex).value[IndexRecordSize * k..IndexRecordSize * k + IndexRecordSize]) == rs[k]
      {
        IndexSlot(rs, k);
      }
    }
  }

  /** A pool under 64 KiB whose keys are under 256 bytes always packs. */
  lemma SmallPoolFits(es: seq<Entry>)
    requires |Lay(es).bytes| < 0x1_0000
    requires forall k :: 0 <= k < |es| ==> |es[k].keyBytes| < 256
    ensures forall k :: 0 <= k < |es| ==> IndexFits(Lay(es).records[k])
  {
    LayLaid(es);
    var p := Lay(es);
    forall k | 0 <= k < |es| ensures IndexFits(p.records[k]) {
      assert Holds(p.records[k], es[k], p.bytes);
    }
  }

  /** `zhuyin_idx_count_opt`: the packed length over the record size. */
  function IndexCount(data: seq<byte>): nat
  {
    |data| / IndexRecordSize
  }

  datatype ImeError = SourceMissing | IndexOverflow(error: PackError)

  /** The entries in byte order of their keys. */
  function SortedOf(g: Groups): seq<Entry>
    requires forall key :: key in g.keys ==> key in g.candidates
  {
    Order.SortByKey(Entries(g), EntryKey)
  }

  /** The index bytes and the pool built from a grouping. */
  function Blobs(g: Groups): Result<(seq<byte>, seq<byte>), ImeError>
    requires forall key :: key in g.keys ==> key in g.candidates
  {
    var p := Lay(SortedOf(g));
    match PackEach(p.records, PackIndex)
    case Ok(index) => Ok((index, p.bytes))
    case Err(e) => Err(IndexOverflow(e))
  }

  /** The index bytes and the pool the converter returns for the lines of the table. */
  function ImeBlobs(lines: seq<string>): Result<(seq<byte>, seq<byte>), ImeError>
  {
    GroupWellFormed(Pairs(lines));
    Blobs(Group(Pairs(lines)))
  }

  /** `ime_map[key]`, created empty when new, gets `c` appended unless it already holds it. */
  method AddCandidate(keys: seq<string>, candidates: map<string, string>, key: string, c: char)
    returns (keys': seq<string>, candidates': map<string, string>)
    ensures Groups(keys', candidates') == Add(Groups(keys, candidates), key, c)
  {
    keys', candidates' := keys, candidates;
    if key !in candidates' {
      keys' := keys' + [key];
      candidates' := candidates'[key := []];
    }
    var list := candidates'[key];
    if c !in list {
      candidates' := candidates'[key := list + [c]];
      if key !in candidates {
        assert list + [c] == [c];
      }
    }
  }

  /** The grouping loop of the converter over the lines of the table. */
  method GroupTable(lines: seq<string>) returns (g: Groups)
    ensures g == Group(Pairs(lines))
  {
    var keys: seq<string> := [];
    var candidates: map<string, string> := map[];
    for i := 0 to |lines|
      invariant Groups(keys, candidates) == Group(Pairs(lines[..i]))
    {
      var parsed := ParseLine(lines[i]);
      assert lines[..i + 1][..i] == lines[..i];
      assert Pairs(lines[..i + 1]) == Pairs(lines[..i]) + [parsed];
      GroupSnoc(Pairs(lines[..i]), parsed);
      if parsed.Some? {
        keys, candidates := AddCandidate(keys, candidates, parsed.value.0, parsed.value.1);
      }
    }
    assert lines[..|lines|] == lines;
    g := Groups(keys, candidates);
  }

  /** `temp_list`: one entry per key, in the map's order. */
  method ListEntries(g: Groups) returns (es: seq<Entry>)
    requires forall key :: key in g.keys ==> key in g.candidates
    ensures es == Entries(g)
  {
    es := [];
    for i := 0 to |g.keys|
      invariant es == Entries(g)[..i]
    {
      es := es + [Entry(Encode(g.keys[i]), g.candidates[g.keys[i]])];
      assert es == Entries(g)[..i + 1];
    }
  }

  /** The pool loop: key bytes then candidate bytes per entry, and a record for each. */
  method LayPool(es: seq<Entry>) returns (records: seq<IndexRecord>, pool: seq<byte>)
    ensures Pool(records, pool) == Lay(es)
  {
    records, pool := [], [];
    for i := 0 to |es|
      invariant Pool(records, pool) == Lay(es[..i])
    {
      assert es[..i + 1][..i] == es[..i];
      var keyBytes := es[i].keyBytes;
      var dataBytes := Encode(es[i].candidates);
      var keyOffset, keyLen := |pool|, |keyBytes|;
      pool := pool + keyBytes;
      var dataOffset, dataLen := |pool|, |dataBytes|;
      pool := pool + dataBytes;
      records := records + [IndexRecord(keyOffset, keyLen, dataOffset, dataLen)];
    }
    assert es[..|es|] == es;
  }

  /**
   * `convert_ime_optimized`: only the first source file is read; when it is
   * missing there is no data, otherwise the packed index and the pool.
   */
  method ConvertIme(firstSource: Option<seq<string>>) returns (r: Result<(seq<byte>, seq<byte>), ImeError>)
    ensures firstSource.None? ==> r == Err(SourceMissing)
    ensures firstSource.Some? ==> r == ImeBlobs(firstSource.value)
  {
    if firstSource.None? {
      return Err(SourceMissing);
    }
    var lines := firstSource.value;
    var g := GroupTable(lines);
    GroupWellFormed(Pairs(lines));
    var entries := ListEntries(g);
    var sorted := Order.SortByKey(entries, EntryKey);
    var records, pool := LayPool(sorted);
    var index := PackList(records, PackIndex);
    match index
    case Err(e) => return Err(IndexOverflow(e));
    case Ok(bytes) => return Ok((bytes, pool));
  }

  /** Record `r` names a key and a candidate list in the pool that decode to `key` and `cands`. */
  predicate Locates(r: IndexRecord, pool: seq<byte>, key: string, cands: string)
  {
    && 0 <= r.keyOffset <= r.dataOffset <= r.dataOffset + r.dataLen <= |pool|
    && Decode(pool[r.keyOffset..r.dataOffset]) == Some(key)
    && Decode(pool[r.dataOffset..r.dataOffset + r.dataLen]) == Some(cands)
  }

  /** Index record `k` of the packed data, read back, locates `key` and `cands` in the pool. */
  predicate Finds(index: seq<byte>, pool: seq<byte>, k: nat, key: string, cands: string)
  {
    && IndexRecordSize * k + IndexRecordSize <= |index|
    && Locates(UnpackIndex(index[IndexRecordSize * k..IndexRecordSize * k + IndexRecordSize]), pool, key, cands)
  }

  /** A record holding the entry of `key` locates `key` and its candidates. */
  lemma HoldsLocates(r: IndexRecord, pool: seq<byte>, key: string, cands: string)
    requires Holds(r, Entry(Encode(key), cands), pool)
    ensures Locates(r, pool, key, cands)
  {
    DecodeEncode(key);
    DecodeEncode(cands);
  }

  /** A packed index record that reads back as the record of an entry for `key` finds `key` and its candidates. */
  lemma RecordFinds(index: seq<byte>, pool: seq<byte>, records: seq<IndexRecord>, es: seq<Entry>, k: nat, key: string, cands: string)
    requires k < |es| == |records| && |index| == IndexRecordSize * |es|
    requires IndexRecordSize * k + IndexRecordSize <= |index|
    requires UnpackIndex(index[IndexRecordSize * k..IndexRecordSize * k + IndexRecordSize]) == records[k]
    requires Holds(records[k], es[k], pool)
    requires es[k] == Entry(Encode(key), cands)
    ensures Finds(index, pool, k, key, cands)
  {
    HoldsLocates(records[k], pool, key, cands);
  }

  /** `8 * n` bytes hold `n` index records. */
  lemma CountOfRecords(n: nat)
    ensures (IndexRecordSize * n) / IndexRecordSize == n
  {
  }

  /** The stages between a grouping and the packed data, for the lemmas below. */
  lemma Stages(g: Groups)
    requires WellFormed(g) && Blobs(g).Ok?
    ensures Laid(SortedOf(g), Lay(SortedOf(g)))
    ensures PackEach(Lay(SortedOf(g)).records, PackIndex).Ok?
    ensures Blobs(g).value == (PackEach(Lay(SortedOf(g)).records, PackIndex).value, Lay(SortedOf(g)).bytes)
    ensures |PackEach(Lay(SortedOf(g)).records, PackIndex).value| == IndexRecordSize * |SortedOf(g)|
    ensures forall k :: 0 <= k < |SortedOf(g)| ==>
              UnpackIndex(PackEach(Lay(SortedOf(g)).records, PackIndex).value[IndexRecordSize * k..IndexRecordSize * k + IndexRecordSize])
              == Lay(SortedOf(g)).records[k]
  {
    LayLaid(SortedOf(g));
    IndexRoundTrip(Lay(SortedOf(g)).records);
  }

  /** The count written to the header is the number of distinct keys. */
  lemma IndexCountIsKeys(g: Groups)
    requires WellFormed(g) && Blobs(g).Ok?
    ensures IndexCount(Blobs(g).value.0) == |g.keys|
  {
    Stages(g);
    assert |SortedOf(g)| == |Entries(g)| by {
      assert multiset(SortedOf(g)) == multiset(Entries(g));
    }
  }

  /** Every key of the grouping can be found in the packed data, with its candidates. */
  lemma FindsEveryKey(g: Groups, key: string)
    requires WellFormed(g) && Blobs(g).Ok?
    requires key in g.candidates
    ensures exists k :: 0 <= k < IndexCount(Blobs(g).value.0)
              && Finds(Blobs(g).value.0, Blobs(g).value.1, k, key, g.candidates[key])
  {
    Stages(g);
    var sorted := SortedOf(g);
    var p := Lay(sorted);
    var index := PackEach(p.records, PackIndex).value;
    var e := Entry(Encode(key), g.candidates[key]);
    SortedEntriesMembers(g, e);
    var k :| 0 <= k < |sorted| && sorted[k] == e;
    Packing.SlotWithin(IndexRecordSize, k, |sorted|);
    RecordFinds(index, p.bytes, p.records, sorted, k, key, g.candidates[key]);
    CountOfRecords(|sorted|);
  }

  /** Every record of the packed data leads to a key of the grouping and its candidates. */
  lemma EveryRecordIsAKey(g: Groups, k: nat)
    requires WellFormed(g) && Blobs(g).Ok?
    requires k < IndexCount(Blobs(g).value.0)
    ensures exists key :: key in g.candidates && Finds(Blobs(g).value.0, Blobs(g).value.1, k, key, g.candidates[key])
  {
    Stages(g);
    var sorted := SortedOf(g);
    var p := Lay(sorted);
    var index := PackEach(p.records, PackIndex).value;
    CountOfRecords(|sorted|);
    assert k < |sorted|;
    assert sorted[k] in sorted;
    SortedEntriesMembers(g, sorted[k]);
    var key :| key in g.keys && sorted[k] == Entry(Encode(key), g.candidates[key]);
    Packing.SlotWithin(IndexRecordSize, k, |sorted|);
    RecordFinds(index, p.bytes, p.records, sorted, k, key, g.candidates[key]);
  }

  /** The keys in the pool rise strictly from one index record to the next, so a binary search over the index is sound. */
  lemma IndexSorted(g: Groups, k: nat, l: nat)
    requires WellFormed(g) && Blobs(g).Ok?
    requires k < l < IndexCount(Blobs(g).value.0)
    ensures var index := Blobs(g).value.0;
            var pool := Blobs(g).value.1;
            var a := UnpackIndex(index[IndexRecordSize * k..IndexRecordSize * k + IndexRecordSize]);
            var b := UnpackIndex(index[IndexRecordSize * l..IndexRecordSize * l + IndexRecordSize]);
            && 0 <= a.keyOffset <= a.dataOffset <= |pool| && 0 <= b.keyOffset <= b.dataOffset <= |pool|
            && Order.LexLess(pool[a.keyOffset..a.dataOffset], pool[b.keyOffset..b.dataOffset])
  {
    Stages(g);
    var sorted := SortedOf(g);
    var p := Lay(sorted);
    SortedEntries(g);
    assert Holds(p.records[k], sorted[k], p.bytes);
    assert Holds(p.records[l], sorted[l], p.bytes);
    Packing.SlotWithin(IndexRecordSize, k, |sorted|);
    Packing.SlotWithin(IndexRecordSize, l, |sorted|);
    assert EntryKey(sorted[k]) == sorted[k].keyBytes;
  }
}
