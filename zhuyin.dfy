/**
 * Zhuyin (Bopomofo) spellings and the lookup keys made from them: the tone
 * marks are rewritten to the digits 2 to 5 and the first tone, which has no
 * mark, is written as an appended "1".  The keyboard layout maps keys of a
 * standard keyboard to Zhuyin symbols and tone marks.
 */
module Zhuyin {
  import opened Wrappers
  import Text

  const SecondTone: char := '\U{02CA}'   // ˊ
  const ThirdTone: char := '\U{02C7}'    // ˇ
  const FourthTone: char := '\U{02CB}'   // ˋ
  const NeutralTone: char := '\U{02D9}'  // ˙

  predicate IsToneMark(c: char)
  {
    c == SecondTone || c == ThirdTone || c == FourthTone || c == NeutralTone
  }

  /** The Zhuyin letters ㄅ (U+3105) to ㄩ (U+3129). */
  predicate IsZhuyinLetter(c: char)
  {
    0x3105 <= c as int <= 0x3129
  }

  /** One of the digits the interface takes as a tone number: 2, 3, 4 or 5. */
  predicate IsToneDigit(c: char)
  {
    '2' <= c <= '5'
  }

  /** The digit each tone mark stands for; other characters stand for themselves. */
  function ToneDigit(c: char): char
  {
    if c == SecondTone then '2'
    else if c == ThirdTone then '3'
    else if c == FourthTone then '4'
    else if c == NeutralTone then '5'
    else c
  }

  /** `s.replace(a, b)` for one-character `a` and `b`: every `a` becomes `b`, nothing else moves. */
  function ReplaceChar(s: string, a: char, b: char): (r: string)
    ensures |r| == |s|
    ensures forall i :: 0 <= i < |s| ==> r[i] == (if s[i] == a then b else s[i])
    decreases |s|
  {
    if s == [] then [] else [if s[0] == a then b else s[0]] + ReplaceChar(s[1..], a, b)
  }

  /** The chain `.replace("ˊ", "2").replace("ˇ", "3").replace("ˋ", "4").replace("˙", "5")`. */
  function ReplaceTones(s: string): (r: string)
    ensures |r| == |s|
    ensures forall i :: 0 <= i < |s| ==> r[i] == ToneDigit(s[i])
  {
    ReplaceChar(ReplaceChar(ReplaceChar(ReplaceChar(s, SecondTone, '2'), ThirdTone, '3'), FourthTone, '4'), NeutralTone, '5')
  }

  /** `any(c in "2345" for c in s)`. */
  predicate HasToneDigit(s: string)
  {
    exists i :: 0 <= i < |s| && IsToneDigit(s[i])
  }

  /** `any(c.isdigit() for c in s)`, with `isdigit` read as the ASCII digits. */
  predicate HasDigit(s: string)
  {
    exists i :: 0 <= i < |s| && Text.IsAsciiDigit(s[i])
  }

  /**
   * The query code the interface looks the input buffer up with: the tones
   * rewritten, then "1" appended exactly when no digit 2 to 5 is in it.
   */
  function QueryCode(buffer: string): (r: string)
    ensures |r| == |buffer| || |r| == |buffer| + 1
    ensures forall i :: 0 <= i < |buffer| ==> r[i] == ToneDigit(buffer[i])
    ensures |r| == |buffer| + 1 <==> forall i :: 0 <= i < |buffer| ==> !IsToneMark(buffer[i]) && !IsToneDigit(buffer[i])
    ensures |r| == |buffer| + 1 ==> r[|buffer|] == '1'
    ensures exists i :: 0 <= i < |r| && '1' <= r[i] <= '5'
  {
    var q := ReplaceTones(buffer);
    if HasToneDigit(q) then
      var i :| 0 <= i < |q| && IsToneDigit(q[i]);
      assert IsToneMark(buffer[i]) || IsToneDigit(buffer[i]);
      q
    else
      assert forall i :: 0 <= i < |buffer| ==> !IsToneDigit(q[i]);
      var r := q + "1";
      assert r[|q|] == '1';
      r
  }

  /**
   * The key the converter files a spelling under: the tones rewritten, then
   * "1" appended exactly when no digit at all is in it.
   */
  function ConverterKey(spelling: string): (r: string)
    ensures |r| == |spelling| || |r| == |spelling| + 1
    ensures forall i :: 0 <= i < |spelling| ==> r[i] == ToneDigit(spelling[i])
    ensures |r| == |spelling| + 1 <==> forall i :: 0 <= i < |spelling| ==> !IsToneMark(spelling[i]) && !Text.IsAsciiDigit(spelling[i])
    ensures |r| == |spelling| + 1 ==> r[|spelling|] == '1'
    ensures HasDigit(r)
  {
    var q := ReplaceTones(spelling);
    if HasDigit(q) then
      var i :| 0 <= i < |q| && Text.IsAsciiDigit(q[i]);
      assert IsToneMark(spelling[i]) || Text.IsAsciiDigit(spelling[i]);
      q
    else
      assert forall i :: 0 <= i < |spelling| ==> !Text.IsAsciiDigit(q[i]);
      var r := q + "1";
      assert Text.IsAsciiDigit(r[|q|]);
      r
  }

  /** No character of `s` is an ASCII digit. */
  predicate DigitFree(s: string)
  {
    forall i :: 0 <= i < |s| ==> !Text.IsAsciiDigit(s[i])
  }

  /** On spellings without digits, such as every buffer the keyboard can type, both key rules agree. */
  lemma KeysAgree(s: string)
    requires DigitFree(s)
    ensures QueryCode(s) == ConverterKey(s)
  {
    var q := QueryCode(s);
    var k := ConverterKey(s);
    assert forall i :: 0 <= i < |s| ==> (IsToneMark(s[i]) <==> IsToneMark(s[i]) || IsToneDigit(s[i]));
    assert forall i :: 0 <= i < |s| ==> (IsToneMark(s[i]) <==> IsToneMark(s[i]) || Text.IsAsciiDigit(s[i]));
    assert |q| == |k|;
    assert forall i :: 0 <= i < |q| ==> q[i] == k[i];
  }

  /** A spelling without a tone mark, such as ㄧ alone, is filed under the first tone. */
  lemma FirstToneKey()
    ensures ConverterKey("\U{3127}") == "\U{3127}1"
    ensures QueryCode("\U{3127}") == "\U{3127}1"
  {
    var key := ConverterKey("\U{3127}");
    assert |key| == 2 && key[0] == '\U{3127}' && key[1] == '1';
    var code := QueryCode("\U{3127}");
    assert |code| == 2 && code[0] == '\U{3127}' && code[1] == '1';
  }

  /** The two rules do differ on a spelling holding a digit outside 2 to 5. */
  lemma KeysDisagreeOnOtherDigits()
    ensures QueryCode("\U{3105}1") == "\U{3105}11"
    ensures ConverterKey("\U{3105}1") == "\U{3105}1"
  {
    var s := "\U{3105}1";
    assert !IsToneMark(s[1]) && !IsToneDigit(s[1]) && !IsToneMark(s[0]) && !IsToneDigit(s[0]);
    assert Text.IsAsciiDigit(s[1]);
    var q := QueryCode(s);
    assert |q| == 3 && q[0] == s[0] && q[1] == '1' && q[2] == '1';
    var k := ConverterKey(s);
    assert |k| == 2 && k[0] == s[0] && k[1] == '1';
  }

  /**
   * The keyboard layout (`key_map`): the symbol the key typing `k` enters,
   * or `None` for a character that is not one of its 41 keys.  The source's
   * keys and symbols are one-character strings.
   */
  function KeyMap(k: char): Option<char>
  {
    match k
    case '1' => Some('ㄅ') case 'q' => Some('ㄆ') case 'a' => Some('ㄇ') case 'z' => Some('ㄈ') case '2' => Some('ㄉ') case 'w' => Some('ㄊ') case 's' => Some('ㄋ') case 'x' => Some('ㄌ')
    case 'e' => Some('ㄍ') case 'd' => Some('ㄎ') case 'c' => Some('ㄏ') case 'r' => Some('ㄐ') case 'f' => Some('ㄑ') case 'v' => Some('ㄒ') case 't' => Some('ㄓ') case 'g' => Some('ㄔ')
    case 'b' => Some('ㄕ') case 'y' => Some('ㄖ') case 'h' => Some('ㄗ') case 'n' => Some('ㄘ') case 'm' => Some('ㄙ') case 'u' => Some('ㄧ') case 'j' => Some('ㄨ') case 'k' => Some('ㄩ')
    case '8' => Some('ㄚ') case 'i' => Some('ㄛ') case 'l' => Some('ㄜ') case ',' => Some('ㄝ') case '9' => Some('ㄞ') case 'o' => Some('ㄟ') case ';' => Some('ㄠ') case '.' => Some('ㄡ')
    case '0' => Some('ㄢ') case 'p' => Some('ㄣ') case '\'' => Some('ㄤ') case '/' => Some('ㄥ') case '6' => Some('ㄦ')
    case '3' => Some(ThirdTone) case '4' => Some(FourthTone) case '5' => Some(NeutralTone) case '7' => Some(SecondTone)
    case _ => None
  }

  /** `text in key_map`: the text a key press typed is one of the layout's keys. */
  predicate InLayout(text: string)
  {
    |text| == 1 && KeyMap(text[0]).Some?
  }

  /** A symbol the keyboard can enter: a Zhuyin letter or a tone mark. */
  predicate IsSymbol(c: char)
  {
    IsZhuyinLetter(c) || IsToneMark(c)
  }

  /** Every key enters a symbol, which is never a digit. */
  lemma KeyMapSymbols(k: char)
    requires KeyMap(k).Some?
    ensures IsSymbol(KeyMap(k).value) && !Text.IsAsciiDigit(KeyMap(k).value)
  {
  }

  /** All of the digit keys 0 to 9 are in the layout, so a typed digit is always taken as a symbol. */
  lemma KeyMapHasDigits(d: char)
    requires '0' <= d <= '9'
    ensures KeyMap(d).Some?
  {
  }

  /** The text typed by Space, `=`, `-` and shifted 3 is not in the layout, and neither is the empty text of arrow keys. */
  lemma NotInLayout()
    ensures !InLayout("") && !InLayout(" ") && !InLayout("=") && !InLayout("-") && !InLayout("#")
  {
  }

  /** The tone marks are on the keys 7, 3, 4 and 5, in the order of the second to the neutral tone. */
  lemma ToneKeys()
    ensures KeyMap('7') == Some(SecondTone) && KeyMap('3') == Some(ThirdTone)
    ensures KeyMap('4') == Some(FourthTone) && KeyMap('5') == Some(NeutralTone)
  {
  }
}
