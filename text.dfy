/**
 * The Python string operations the tools rely on, for `str` values modelled
 * as `seq<char>`: `isspace`, `strip`, `split()` on whitespace runs,
 * `split(sep)` on one separator character and its inverse `sep.join`,
 * decimal formatting of non-negative integers and the code points of a string.
 */
module Text {

  /** Python's `str.isspace()` on one character (Unicode White_Space as CPython defines it). */
  predicate IsSpace(c: char)
  {
    var n := c as int;
    (9 <= n <= 13) || (28 <= n <= 32) || n == 0x85 || n == 0xA0 || n == 0x1680
    || (0x2000 <= n <= 0x200A) || n == 0x2028 || n == 0x2029 || n == 0x202F
    || n == 0x205F || n == 0x3000
  }

  /** Python's `str.isdigit()` restricted to the ASCII digits. */
  predicate IsAsciiDigit(c: char)
  {
    48 <= c as int <= 57
  }

  /** No character of `w` is whitespace. */
  predicate SpaceFree(w: string)
  {
    forall i :: 0 <= i < |w| ==> !IsSpace(w[i])
  }

  /** How many whitespace characters `s` starts with. */
  function LeadingSpaces(s: string): (n: nat)
    ensures n <= |s|
    ensures forall i :: 0 <= i < n ==> IsSpace(s[i])
    ensures n == |s| || !IsSpace(s[n])
    decreases |s|
  {
    if s == [] || !IsSpace(s[0]) then 0 else 1 + LeadingSpaces(s[1..])
  }

  /** Where the whitespace `s` ends with begins. */
  function TrailingStart(s: string): (n: nat)
    ensures n <= |s|
    ensures forall i :: n <= i < |s| ==> IsSpace(s[i])
    ensures n == 0 || !IsSpace(s[n - 1])
    decreases |s|
  {
    if s == [] || !IsSpace(s[|s| - 1]) then |s| else TrailingStart(s[..|s| - 1])
  }

  /**
   * `s.strip()`: the slice of `s` between its leading and its trailing
   * whitespace; empty exactly when `s` is whitespace only.
   */
  function Strip(s: string): (r: string)
    ensures r == [] || (!IsSpace(r[0]) && !IsSpace(r[|r| - 1]))
    ensures r == [] <==> forall k :: 0 <= k < |s| ==> IsSpace(s[k])
  {
    var i := LeadingSpaces(s);
    if i == |s| then ""
    else
      assert !IsSpace(s[i]);
      s[i..TrailingStart(s)]
  }

  /** `strip` keeps a string that neither starts nor ends with whitespace as it is. */
  lemma StripUnchanged(s: string)
    requires s == [] || (!IsSpace(s[0]) && !IsSpace(s[|s| - 1]))
    ensures Strip(s) == s
  {
    if s != [] {
      assert LeadingSpaces(s) == 0;
    }
  }

  /** `strip` removes whitespace at the ends and nothing else: the result is a slice of `s` with only whitespace around it. */
  lemma StripTrims(s: string)
    ensures exists i, j :: 0 <= i <= j <= |s| && Strip(s) == s[i..j]
              && (forall k :: 0 <= k < i ==> IsSpace(s[k])) && (forall k :: j <= k < |s| ==> IsSpace(s[k]))
  {
    var i := LeadingSpaces(s);
    if i == |s| {
      assert Strip(s) == s[i..i];
    } else {
      var j := TrailingStart(s);
      assert !IsSpace(s[i]);
      assert i < j;
      assert Strip(s) == s[i..j];
    }
  }

  /** Whitespace added around a string that has none at its ends is exactly what `strip` removes. */
  lemma StripMargins(pre: string, w: string, post: string)
    requires forall k :: 0 <= k < |pre| ==> IsSpace(pre[k])
    requires forall k :: 0 <= k < |post| ==> IsSpace(post[k])
    requires w == [] || (!IsSpace(w[0]) && !IsSpace(w[|w| - 1]))
    ensures Strip(pre + w + post) == w
  {
    var s := pre + w + post;
    if w == [] {
      assert forall k :: 0 <= k < |s| ==> IsSpace(s[k]) by {
        forall k | 0 <= k < |s| ensures IsSpace(s[k]) {
          if k < |pre| {
            assert s[k] == pre[k];
          } else {
            assert s[k] == post[k - |pre|];
          }
        }
      }
    } else {
      var i := LeadingSpaces(s);
      var e := |pre| + |w|;
      assert forall k :: 0 <= k < |pre| ==> s[k] == pre[k];
      assert forall k :: e <= k < |s| ==> s[k] == post[k - e];
      assert s[|pre|] == w[0] && s[e - 1] == w[|w| - 1];
      assert i == |pre|;
      var j := TrailingStart(s);
      assert j == e;
      assert s[i..j] == w;
    }
  }

  /** Stripping twice is stripping once. */
  lemma StripIdempotent(s: string)
    ensures Strip(Strip(s)) == Strip(s)
  {
    StripUnchanged(Strip(s));
  }

  /** The longest prefix of `s` without whitespace. */
  function Word(s: string): (r: string)
    ensures |r| <= |s| && r == s[..|r|]
    ensures |r| == |s| || IsSpace(s[|r|])
    ensures SpaceFree(r)
    decreases |s|
  {
    if s == [] || IsSpace(s[0]) then "" else [s[0]] + Word(s[1..])
  }

  /** `s.split()`: the maximal runs of non-whitespace characters, in order. */
  function Fields(s: string): (r: seq<string>)
    ensures forall k :: 0 <= k < |r| ==> r[k] != [] && SpaceFree(r[k])
    decreases |s|
  {
    var i := LeadingSpaces(s);
    if i == |s| then []
    else
      var w := Word(s[i..]);
      assert w != [];
      var rest := Fields(s[i + |w|..]);
      assert forall k :: 1 <= k < |rest| + 1 ==> ([w] + rest)[k] == rest[k - 1];
      [w] + rest
  }

  /** Joins words with one space between them (`" ".join(ws)`). */
  function JoinWithSpace(ws: seq<string>): string
    decreases |ws|
  {
    if |ws| == 0 then "" else if |ws| == 1 then ws[0] else ws[0] + " " + JoinWithSpace(ws[1..])
  }

  lemma {:induction false} WordOfJoin(w: string, rest: string)
    requires w != [] && SpaceFree(w)
    requires rest == [] || IsSpace(rest[0])
    ensures Word(w + rest) == w
    decreases |w|
  {
    if |w| > 1 {
      assert (w + rest)[1..] == w[1..] + rest;
      WordOfJoin(w[1..], rest);
      assert w == [w[0]] + w[1..];
    } else {
      assert (w + rest)[1..] == rest;
    }
  }

  lemma FieldsOfWord(w: string)
    requires w != [] && SpaceFree(w)
    ensures Fields(w) == [w]
  {
    WordOfJoin(w, "");
    assert w + "" == w;
    assert LeadingSpaces(w) == 0;
    assert w[0..] == w;
    assert w[|w|..] == [];
  }

  lemma FieldsCons(w: string, rest: string)
    requires w != [] && SpaceFree(w)
    requires rest == [] || !IsSpace(rest[0])
    ensures Fields(w + " " + rest) == [w] + Fields(rest)
  {
    var s := w + " " + rest;
    assert s == w + (" " + rest);
    WordOfJoin(w, " " + rest);
    assert LeadingSpaces(s) == 0;
    assert s[0..] == s;
    var t := s[|w|..];
    assert t == " " + rest;
    assert t[1..] == rest;
    assert LeadingSpaces(t) == 1 + LeadingSpaces(rest);
    assert t[1 + LeadingSpaces(rest)..] == rest[LeadingSpaces(rest)..];
  }

  /** `split()` takes apart what a single-space join of non-empty words put together. */
  lemma {:induction false} FieldsOfJoin(ws: seq<string>)
    requires forall k :: 0 <= k < |ws| ==> ws[k] != [] && SpaceFree(ws[k])
    ensures Fields(JoinWithSpace(ws)) == ws
    decreases |ws|
  {
    if |ws| == 1 {
      FieldsOfWord(ws[0]);
    } else if |ws| > 1 {
      var tail := ws[1..];
      assert forall k :: 0 <= k < |tail| ==> tail[k] == ws[k + 1];
      FieldsOfJoin(tail);
      var rest := JoinWithSpace(tail);
      assert rest != [] && rest[0] == ws[1][0];
      FieldsCons(ws[0], rest);
      assert ws == [ws[0]] + tail;
    }
  }

  /** A single-space join of non-empty, whitespace-free words starts with the first word and ends with the last. */
  lemma {:induction false} JoinEdges(ws: seq<string>)
    requires |ws| >= 1
    requires forall k :: 0 <= k < |ws| ==> ws[k] != [] && SpaceFree(ws[k])
    ensures var j := JoinWithSpace(ws); j != [] && j[0] == ws[0][0] && j[|j| - 1] == ws[|ws| - 1][|ws[|ws| - 1]| - 1]
    decreases |ws|
  {
    if |ws| > 1 {
      var tail := ws[1..];
      assert forall k :: 0 <= k < |tail| ==> tail[k] == ws[k + 1];
      JoinEdges(tail);
    }
  }

  /** `strip` then `split()` of such a join gives back the words: the shape of a line of a whitespace-separated table. */
  lemma FieldsOfStrippedJoin(ws: seq<string>)
    requires forall k :: 0 <= k < |ws| ==> ws[k] != [] && SpaceFree(ws[k])
    ensures Fields(Strip(JoinWithSpace(ws))) == ws
  {
    if |ws| >= 1 {
      JoinEdges(ws);
      var j := JoinWithSpace(ws);
      assert !IsSpace(ws[0][0]);
      var last := ws[|ws| - 1];
      assert !IsSpace(last[|last| - 1]);
      StripUnchanged(j);
    }
    FieldsOfJoin(ws);
  }

  /**
   * `strip` then `split()` of such a join with whitespace around it, as
   * `readlines` gives a line with its line break, also gives back the words.
   */
  lemma FieldsOfPaddedJoin(pre: string, ws: seq<string>, post: string)
    requires forall k :: 0 <= k < |pre| ==> IsSpace(pre[k])
    requires forall k :: 0 <= k < |post| ==> IsSpace(post[k])
    requires forall k :: 0 <= k < |ws| ==> ws[k] != [] && SpaceFree(ws[k])
    ensures Fields(Strip(pre + JoinWithSpace(ws) + post)) == ws
  {
    var j := JoinWithSpace(ws);
    if |ws| >= 1 {
      JoinEdges(ws);
      assert !IsSpace(ws[0][0]);
      var last := ws[|ws| - 1];
      assert !IsSpace(last[|last| - 1]);
    }
    StripMargins(pre, j, post);
    FieldsOfJoin(ws);
  }

  /** `s.split(d)` for a one-character separator `d`: always at least one piece, none containing `d`. */
  function SplitOn(s: string, d: char): (r: seq<string>)
    ensures |r| >= 1
    ensures forall k :: 0 <= k < |r| ==> d !in r[k]
    decreases |s|
  {
    if s == [] then [""]
    else
      var rest := SplitOn(s[1..], d);
      if s[0] == d then [""] + rest
      else [[s[0]] + rest[0]] + rest[1..]
  }

  /** `d.join(parts)`. */
  function JoinOn(parts: seq<string>, d: char): string
    decreases |parts|
  {
    if |parts| == 0 then "" else if |parts| == 1 then parts[0] else parts[0] + [d] + JoinOn(parts[1..], d)
  }

  lemma JoinOnCons(p: string, parts: seq<string>, d: char)
    requires |parts| >= 1
    ensures JoinOn([p] + parts, d) == p + [d] + JoinOn(parts, d)
  {
    assert ([p] + parts)[1..] == parts;
  }

  /** Joining the pieces of a split gives back the original string. */
  lemma {:induction false} JoinSplit(s: string, d: char)
    ensures JoinOn(SplitOn(s, d), d) == s
    decreases |s|
  {
    if s != [] {
      var rest := SplitOn(s[1..], d);
      JoinSplit(s[1..], d);
      if s[0] == d {
        JoinOnCons("", rest, d);
      } else if |rest| == 1 {
        assert SplitOn(s, d) == [[s[0]] + rest[0]];
      } else {
        var parts := SplitOn(s, d);
        assert parts == [[s[0]] + rest[0]] + rest[1..];
        JoinOnCons([s[0]] + rest[0], rest[1..], d);
        JoinOnCons(rest[0], rest[1..], d);
        assert rest == [rest[0]] + rest[1..];
      }
    }
  }

  lemma SplitOnPrefix(c: char, s: string, d: char)
    requires c != d
    ensures SplitOn([c] + s, d) == [[c] + SplitOn(s, d)[0]] + SplitOn(s, d)[1..]
  {
    assert ([c] + s)[1..] == s;
  }

  /** Splitting a join of pieces free of the separator gives back the pieces. */
  lemma {:induction false} SplitJoin(parts: seq<string>, d: char)
    requires |parts| >= 1
    requires forall k :: 0 <= k < |parts| ==> d !in parts[k]
    ensures SplitOn(JoinOn(parts, d), d) == parts
    decreases |parts|, |parts[0]|
  {
    var p := parts[0];
    if p == [] {
      if |parts| > 1 {
        var tail := JoinOn(parts[1..], d);
        assert JoinOn(parts, d) == [d] + tail;
        assert ([d] + tail)[1..] == tail;
        SplitJoin(parts[1..], d);
        assert parts == [""] + parts[1..];
      }
    } else {
      var parts' := [p[1..]] + parts[1..];
      assert parts'[1..] == parts[1..];
      assert forall k :: 0 <= k < |parts'| ==> d !in parts'[k] by {
        forall k | 0 <= k < |parts'| ensures d !in parts'[k] {
          if k > 0 {
            assert parts'[k] == parts[k];
          }
        }
      }
      SplitJoin(parts', d);
      var j' := JoinOn(parts', d);
      assert JoinOn(parts, d) == [p[0]] + j' by {
        assert p == [p[0]] + p[1..];
        if |parts| > 1 {
          assert JoinOn(parts, d) == p + [d] + JoinOn(parts[1..], d);
          assert j' == p[1..] + [d] + JoinOn(parts[1..], d);
        }
      }
      assert p[0] != d;
      SplitOnPrefix(p[0], j', d);
      assert parts' == [parts'[0]] + parts'[1..];
      assert parts == [p] + parts[1..];
      assert p == [p[0]] + p[1..];
    }
  }

  /** The code points of a string, the key Python's `sorted` compares strings by. */
  function Codepoints(s: string): (r: seq<int>)
    ensures |r| == |s|
    ensures forall i :: 0 <= i < |s| ==> r[i] == s[i] as int
  {
    seq(|s|, i requires 0 <= i < |s| => s[i] as int)
  }

  /** Different strings have different code point sequences. */
  lemma CodepointsInjective(a: string, b: string)
    requires Codepoints(a) == Codepoints(b)
    ensures a == b
  {
    assert |a| == |b|;
    forall i | 0 <= i < |a| ensures a[i] == b[i] {
      assert Codepoints(a)[i] == Codepoints(b)[i];
    }
  }

  function DigitChar(d: int): (c: char)
    requires 0 <= d < 10
    ensures IsAsciiDigit(c) && c as int - 48 == d
  {
    (48 + d) as char
  }

  /** The decimal text of `n`, as Python's `str(n)` and `f"{n}"` print it. */
  function NatToString(n: nat): (r: string)
    ensures |r| >= 1
    ensures forall i :: 0 <= i < |r| ==> IsAsciiDigit(r[i])
    ensures r[0] == '0' ==> n == 0
  {
    if n < 10 then [DigitChar(n)] else NatToString(n / 10) + [DigitChar(n % 10)]
  }

  /** Reads a string of ASCII digits as a decimal number. */
  function ParseNat(s: string): nat
    requires forall i :: 0 <= i < |s| ==> IsAsciiDigit(s[i])
    decreases |s|
  {
    if s == [] then 0
    else
      assert IsAsciiDigit(s[|s| - 1]);
      ParseNat(s[..|s| - 1]) * 10 + (s[|s| - 1] as int - 48)
  }

  /** Decimal formatting loses nothing. */
  lemma {:induction false} ParseNatToString(n: nat)
    ensures ParseNat(NatToString(n)) == n
  {
    if n >= 10 {
      var s := NatToString(n);
      assert s[..|s| - 1] == NatToString(n / 10);
      ParseNatToString(n / 10);
    }
  }

  lemma NatToStringInjective(m: nat, n: nat)
    requires NatToString(m) == NatToString(n)
    ensures m == n
  {
    ParseNatToString(m);
    ParseNatToString(n);
  }

  /** `"".join(ws)`. */
  function Concat(ws: seq<string>): (r: string)
    decreases |ws|
  {
    if ws == [] then "" else Concat(ws[..|ws| - 1]) + ws[|ws| - 1]
  }

  /** Joining one-character strings gives as many characters, each string's character in turn. */
  lemma {:induction false} ConcatSingles(ws: seq<string>)
    requires forall k :: 0 <= k < |ws| ==> |ws[k]| == 1
    ensures |Concat(ws)| == |ws|
    ensures forall k :: 0 <= k < |ws| ==> Concat(ws)[k] == ws[k][0]
    decreases |ws|
  {
    if ws != [] {
      var p := ws[..|ws| - 1];
      assert forall k :: 0 <= k < |p| ==> p[k] == ws[k];
      ConcatSingles(p);
    }
  }
}
