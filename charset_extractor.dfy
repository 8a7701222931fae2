/**
 * The charset extractor (`tools/charset_extractor.py`): every line of every
 * configured table is stripped, blank lines are skipped, one string is taken
 * from each remaining line by the table's method (its first character, or one
 * column of a split), stripped again and gathered in a set; the set is written
 * out sorted and concatenated. A table whose file is missing is skipped.
 */
module CharsetExtractor {
  import opened Wrappers
  import Text
  import Order

  /** How strings are taken from a table's lines (the `method` of a table's configuration). */
  datatype Method =
    | FirstChar
    | Split(delimiter: char, column: nat)

  /** One configured table: its rule, and its lines, or `None` when the file is missing. */
  datatype Table = Table(rule: Method, lines: Option<seq<string>>)

  /** Where the first character of a stripped line comes from. */
  lemma StripFirst(s: string)
    requires Text.Strip(s) != []
    ensures Text.LeadingSpaces(s) < |s|
    ensures Text.Strip(s)[0] == s[Text.LeadingSpaces(s)]
  {
  }

  /**
   * What one raw line gives: nothing for a blank line; otherwise its first
   * character, or the chosen column of the split when that column exists and
   * is not empty, stripped.
   */
  function Extract(m: Method, raw: string): (r: Option<string>)
    ensures Text.Strip(raw) == [] ==> r == None
    ensures m.FirstChar? ==> (r.Some? <==> Text.Strip(raw) != [])
    ensures m.FirstChar? && r.Some? ==>
              Text.LeadingSpaces(raw) < |raw| && r.value == [raw[Text.LeadingSpaces(raw)]] && !Text.IsSpace(r.value[0])
    ensures m.Split? && r.Some? ==>
              m.delimiter !in r.value && (r.value == [] || (!Text.IsSpace(r.value[0]) && !Text.IsSpace(r.value[|r.value| - 1])))
  {
    var line := Text.Strip(raw);
    if line == [] then None
    else
      match m
      case FirstChar =>
        StripFirst(raw);
        Some([line[0]])
      case Split(d, col) =>
        var parts := Text.SplitOn(line, d);
        if col < |parts| && parts[col] != [] then
          var w := Text.Strip(parts[col]);
          assert d !in w by {
            StripWithin(parts[col]);
          }
          Some(w)
        else None
  }

  /** Every character of a stripped string is a character of the string. */
  lemma StripWithin(s: string)
    ensures forall c :: c in Text.Strip(s) ==> c in s
  {
    var i := Text.LeadingSpaces(s);
    if i < |s| {
      forall c | c in Text.Strip(s) ensures c in s {
        var k :| 0 <= k < |Text.Strip(s)| && Text.Strip(s)[k] == c;
        assert s[i + k] == c;
      }
    }
  }

  /**
   * A line written as columns joined by the delimiter, with no whitespace at
   * either end, gives the chosen column stripped when that column exists and
   * is not empty, and nothing otherwise.
   */
  lemma ExtractColumns(parts: seq<string>, d: char, col: nat)
    requires |parts| >= 1
    requires forall k :: 0 <= k < |parts| ==> d !in parts[k]
    requires var line := Text.JoinOn(parts, d);
             line != [] && !Text.IsSpace(line[0]) && !Text.IsSpace(line[|line| - 1])
    ensures Extract(Split(d, col), Text.JoinOn(parts, d)) ==
              if col < |parts| && parts[col] != [] then Some(Text.Strip(parts[col])) else None
  {
    var line := Text.JoinOn(parts, d);
    Text.StripUnchanged(line);
    Text.SplitJoin(parts, d);
  }

  /** A line is stripped first, so the whitespace around it, its line break included, changes nothing. */
  lemma ExtractStripped(m: Method, raw: string)
    ensures Extract(m, raw) == Extract(m, Text.Strip(raw))
  {
    Text.StripIdempotent(raw);
  }

  /**
   * A line as `readlines` gives it, delimited columns with whitespace around
   * them, gives the chosen column stripped when that column exists and is not
   * empty, and nothing otherwise.
   */
  lemma ExtractPadded(pre: string, parts: seq<string>, d: char, col: nat, post: string)
    requires forall k :: 0 <= k < |pre| ==> Text.IsSpace(pre[k])
    requires forall k :: 0 <= k < |post| ==> Text.IsSpace(post[k])
    requires |parts| >= 1
    requires forall k :: 0 <= k < |parts| ==> d !in parts[k]
    requires var line := Text.JoinOn(parts, d);
             line != [] && !Text.IsSpace(line[0]) && !Text.IsSpace(line[|line| - 1])
    ensures Extract(Split(d, col), pre + Text.JoinOn(parts, d) + post) ==
              if col < |parts| && parts[col] != [] then Some(Text.Strip(parts[col])) else None
  {
    var line := Text.JoinOn(parts, d);
    Text.StripMargins(pre, line, post);
    ExtractStripped(Split(d, col), pre + line + post);
    ExtractColumns(parts, d, col);
  }

  /** A line "1<tab>一" of the tab-separated table, line break included, gives 一 from its second column. */
  lemma ExtractTabbedLine()
    ensures Extract(Split('\t', 1), "1\t\U{4E00}\n") == Some("\U{4E00}")
  {
    var parts := ["1", "\U{4E00}"];
    assert Text.JoinOn(parts, '\t') == "1\t\U{4E00}" by {
      Text.JoinOnCons("1", ["\U{4E00}"], '\t');
    }
    assert "" + Text.JoinOn(parts, '\t') + "\n" == "1\t\U{4E00}\n";
    assert Text.IsSpace("\n"[0]);
    ExtractPadded("", parts, '\t', 1, "\n");
    Text.StripUnchanged(parts[1]);
  }

  /** What each line of a table gives, line by line. */
  function Extracted(m: Method, lines: seq<string>): (got: seq<Option<string>>)
    ensures |got| == |lines|
    decreases |lines|
  {
    if lines == [] then [] else Extracted(m, lines[..|lines| - 1]) + [Extract(m, lines[|lines| - 1])]
  }

  /** One more line adds what it gives. */
  lemma ExtractedSnoc(m: Method, lines: seq<string>, line: string)
    ensures Extracted(m, lines + [line]) == Extracted(m, lines) + [Extract(m, line)]
  {
    assert (lines + [line])[..|lines|] == lines;
  }

  /** Entry `j` of what the lines give is what line `j` gives. */
  lemma {:induction false} ExtractedAt(m: Method, lines: seq<string>, j: nat)
    requires j < |lines|
    ensures Extracted(m, lines)[j] == Extract(m, lines[j])
    decreases |lines|
  {
    if j < |lines| - 1 {
      ExtractedAt(m, lines[..|lines| - 1], j);
    }
  }

  /** The strings among the results of a sequence of lines. */
  function Gathered(got: seq<Option<string>>): set<string>
    decreases |got|
  {
    if got == [] then {}
    else
      var last := got[|got| - 1];
      Gathered(got[..|got| - 1]) + (if last.Some? then {last.value} else {})
  }

  /** One more result adds its string, if any. */
  lemma GatheredSnoc(got: seq<Option<string>>, x: Option<string>)
    ensures Gathered(got + [x]) == Gathered(got) + (if x.Some? then {x.value} else {})
  {
    assert (got + [x])[..|got|] == got;
  }

  /** A string is gathered exactly when some result is that string. */
  lemma {:induction false} GatheredMembers(got: seq<Option<string>>, w: string)
    ensures w in Gathered(got) <==> Some(w) in got
    decreases |got|
  {
    if got != [] {
      var p := got[..|got| - 1];
      GatheredMembers(p, w);
      assert got == p + [got[|got| - 1]];
    }
  }

  /** The strings the lines of one table give. */
  function LinesStrings(m: Method, lines: seq<string>): set<string>
  {
    Gathered(Extracted(m, lines))
  }

  /** A string comes from a table's lines exactly when some line gives it. */
  lemma LinesStringsMembers(m: Method, lines: seq<string>, w: string)
    ensures w in LinesStrings(m, lines) <==> exists j :: 0 <= j < |lines| && Extract(m, lines[j]) == Some(w)
  {
    var got := Extracted(m, lines);
    GatheredMembers(got, w);
    if Some(w) in got {
      var j :| 0 <= j < |got| && got[j] == Some(w);
      ExtractedAt(m, lines, j);
    }
    if exists j :: 0 <= j < |lines| && Extract(m, lines[j]) == Some(w) {
      var j :| 0 <= j < |lines| && Extract(m, lines[j]) == Some(w);
      ExtractedAt(m, lines, j);
      assert got[j] == Some(w);
    }
  }

  /** The strings of one table; a missing file gives none. */
  function TableStrings(t: Table): set<string>
  {
    match t.lines
    case None => {}
    case Some(lines) => LinesStrings(t.rule, lines)
  }

  /** The union of the sets, taken from the first to the last. */
  function Union(ss: seq<set<string>>): set<string>
    decreases |ss|
  {
    if ss == [] then {} else Union(ss[..|ss| - 1]) + ss[|ss| - 1]
  }

  /** A string is in the union exactly when it is in one of the sets. */
  lemma {:induction false} UnionMembers(ss: seq<set<string>>, w: string)
    ensures w in Union(ss) <==> exists i :: 0 <= i < |ss| && w in ss[i]
    decreases |ss|
  {
    if ss != [] {
      var p := ss[..|ss| - 1];
      UnionMembers(p, w);
      if w in Union(p) {
        var i :| 0 <= i < |p| && w in p[i];
        assert ss[i] == p[i];
      }
      if exists i :: 0 <= i < |ss| && w in ss[i] {
        var i :| 0 <= i < |ss| && w in ss[i];
        if i < |p| {
          assert p[i] == ss[i];
        }
      }
    }
  }

  /** The strings of each table, table by table. */
  function TableSets(ts: seq<Table>): (ss: seq<set<string>>)
    ensures |ss| == |ts|
    ensures forall i :: 0 <= i < |ts| ==> ss[i] == TableStrings(ts[i])
  {
    seq(|ts|, i requires 0 <= i < |ts| => TableStrings(ts[i]))
  }

  /** `char_set` after all the tables. */
  function Collected(ts: seq<Table>): set<string>
  {
    Union(TableSets(ts))
  }

  /** Line `j` of table `i`, when that table's file is present, gives `w`. */
  predicate Gives(ts: seq<Table>, i: int, j: int, w: string)
  {
    && 0 <= i < |ts| && ts[i].lines.Some? && 0 <= j < |ts[i].lines.value|
    && Extract(ts[i].rule, ts[i].lines.value[j]) == Some(w)
  }

  /** A string is collected exactly when some line of some present table gives it. */
  lemma CollectedMembers(ts: seq<Table>, w: string)
    ensures w in Collected(ts) <==> exists i, j :: Gives(ts, i, j, w)
  {
    UnionMembers(TableSets(ts), w);
    if w in Collected(ts) {
      var i :| 0 <= i < |ts| && w in TableStrings(ts[i]);
      var t := ts[i];
      LinesStringsMembers(t.rule, t.lines.value, w);
      var j :| 0 <= j < |t.lines.value| && Extract(t.rule, t.lines.value[j]) == Some(w);
      assert Gives(ts, i, j, w);
    }
    if exists i, j :: Gives(ts, i, j, w) {
      var i, j :| Gives(ts, i, j, w);
      LinesStringsMembers(ts[i].rule, ts[i].lines.value, w);
      assert w in TableStrings(ts[i]);
    }
  }

  /** Python orders strings by their code points. */
  function StringKey(w: string): seq<int>
  {
    Text.Codepoints(w)
  }

  /** The inner loop of `extract_chars_from_tables`: adds what each line of one table gives to `charSet`. */
  method AddLines(charSet: set<string>, m: Method, lines: seq<string>) returns (r: set<string>)
    ensures r == charSet + LinesStrings(m, lines)
  {
    r := charSet;
    for j := 0 to |lines|
      invariant r == charSet + Gathered(Extracted(m, lines[..j]))
    {
      var got := Extract(m, lines[j]);
      NextLine(m, lines, j);
      if got.Some? {
        r := r + {got.value};
      }
    }
    assert lines[..|lines|] == lines;
  }

  /** Line `j` adds what it gives to what the lines before it gave. */
  lemma NextLine(m: Method, lines: seq<string>, j: nat)
    requires j < |lines|
    ensures var got := Extract(m, lines[j]);
            Gathered(Extracted(m, lines[..j + 1])) == Gathered(Extracted(m, lines[..j])) + (if got.Some? then {got.value} else {})
  {
    assert lines[..j + 1] == lines[..j] + [lines[j]];
    ExtractedSnoc(m, lines[..j], lines[j]);
    GatheredSnoc(Extracted(m, lines[..j]), Extract(m, lines[j]));
  }

  /** The outer loop: every table in turn, skipping a table whose file is missing. */
  method Gather(ts: seq<Table>) returns (charSet: set<string>)
    ensures charSet == Collected(ts)
  {
    charSet := {};
    ghost var sets := TableSets(ts);
    for i := 0 to |ts|
      invariant charSet == Union(sets[..i])
    {
      assert sets[..i + 1][..i] == sets[..i];
      var t := ts[i];
      if t.lines.None? {
        continue;
      }
      charSet := AddLines(charSet, t.rule, t.lines.value);
    }
    assert sets[..|ts|] == sets;
  }

  /**
   * `extract_chars_from_tables`: gathers the set table by table and line by
   * line, and when it is not empty returns it sorted (the count printed is
   * the length of that list) together with the text written to the output
   * file. An empty set writes nothing.
   */
  method ExtractChars(ts: seq<Table>) returns (sortedChars: seq<string>, output: Option<string>)
    ensures output.None? <==> Collected(ts) == {}
    ensures output.Some? ==> output.value == Text.Concat(sortedChars)
    ensures Order.StrictlyAscending(sortedChars, StringKey)
    ensures forall w :: w in sortedChars <==> w in Collected(ts)
    ensures |sortedChars| == |Collected(ts)|
  {
    var charSet := Gather(ts);
    assert Order.InjectiveOn(charSet, StringKey) by {
      forall a, b | a in charSet && b in charSet && StringKey(a) == StringKey(b) ensures a == b {
        Text.CodepointsInjective(a, b);
      }
    }
    sortedChars := Order.SortedList(charSet, StringKey);
    NoRepeats(sortedChars);
    Order.DistinctCardinality(sortedChars, charSet);
    if charSet == {} {
      return sortedChars, None;
    }
    output := Some(Text.Concat(sortedChars));
  }

  /** A strictly ascending list of strings repeats none. */
  lemma NoRepeats(ws: seq<string>)
    requires Order.StrictlyAscending(ws, StringKey)
    ensures Order.Distinct(ws)
  {
    forall i, j | 0 <= i < j < |ws| ensures ws[i] != ws[j] {
      if ws[i] == ws[j] {
        Order.LexIrreflexive(StringKey(ws[i]));
      }
    }
  }

  /** When every collected string is one character, the output is those characters in ascending code point order. */
  lemma SingleCharOutput(sortedChars: seq<string>)
    requires Order.StrictlyAscending(sortedChars, StringKey)
    requires forall k :: 0 <= k < |sortedChars| ==> |sortedChars[k]| == 1
    ensures |Text.Concat(sortedChars)| == |sortedChars|
    ensures forall i, j :: 0 <= i < j < |sortedChars| ==> Text.Concat(sortedChars)[i] < Text.Concat(sortedChars)[j]
  {
    Text.ConcatSingles(sortedChars);
    forall i, j | 0 <= i < j < |sortedChars| ensures Text.Concat(sortedChars)[i] < Text.Concat(sortedChars)[j] {
      var a := sortedChars[i];
      var b := sortedChars[j];
      assert StringKey(a) == [a[0] as int] && StringKey(b) == [b[0] as int];
      Order.LexLessSingleton(a[0] as int, b[0] as int);
    }
  }
}
