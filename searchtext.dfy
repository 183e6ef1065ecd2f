/**
 * `encode` (src/main.ts): the canonical form of search text that both the
 * shelter index and the query go through, so that kana script, character
 * width, spacing and ASCII case do not matter for matching.
 *
 * The moji conversions are range shifts as moji defines its character classes:
 * ZS (U+3000) to HS (U+0020), ZE (U+FF01..U+FF5E) to HE (U+0021..U+007E) and
 * HG (U+3041..U+3096) to KK (U+30A1..U+30F6). Half-width to full-width
 * katakana (HK to ZK) also combines voiced sound marks with the preceding
 * letter, so it is a parameter `hkToZk` of the model, with the properties
 * stated by `HalfToFullWidth`.
 */
module SearchText {

  /** A half-width katakana form (U+FF61..U+FF9F), moji's HK class. */
  predicate IsHalfWidthKana(c: char) {
    '\U{FF61}' <= c <= '\U{FF9F}'
  }

  /** Full-width ASCII variants (U+FF01..U+FF5E), moji's ZE class. */
  predicate IsFullWidthAscii(c: char) {
    '\U{FF01}' <= c <= '\U{FF5E}'
  }

  /** Hiragana (U+3041..U+3096), moji's HG class. */
  predicate IsHiragana(c: char) {
    '\U{3041}' <= c <= '\U{3096}'
  }

  predicate IsUpperAscii(c: char) {
    'A' <= c <= 'Z'
  }

  /** The characters the JavaScript regular expression class `\s` matches. */
  predicate IsJsSpace(c: char) {
    || c == '\t' || c == '\n' || c == '\U{000B}' || c == '\U{000C}' || c == '\r' || c == ' '
    || c == '\U{00A0}' || c == '\U{1680}' || ('\U{2000}' <= c <= '\U{200A}')
    || c == '\U{2028}' || c == '\U{2029}' || c == '\U{202F}' || c == '\U{205F}'
    || c == '\U{3000}' || c == '\U{FEFF}'
  }

  /** No character of `s` satisfies `p`. */
  predicate NoneIn(s: string, p: char -> bool) {
    forall i :: 0 <= i < |s| ==> !p(s[i])
  }

  /**
   * What the model needs of moji's half-width to full-width katakana step,
   * for a set `hk` of the characters it rewrites: `hk` lies inside the
   * half-width katakana block, the step leaves no character of `hk` behind,
   * and it returns text without such characters unchanged.
   */
  ghost predicate HalfToFullWidth(hkToZk: string -> string, hk: char -> bool) {
    && (forall c :: hk(c) ==> IsHalfWidthKana(c))
    && (forall s :: NoneIn(hkToZk(s), hk))
    && (forall s :: NoneIn(s, hk) ==> hkToZk(s) == s)
  }

  /** moji `convert('ZS', 'HS')`: the ideographic space becomes an ASCII space. */
  function FullToHalfSpace(s: string): string {
    seq(|s|, i requires 0 <= i < |s| => if s[i] == '\U{3000}' then ' ' else s[i])
  }

  /** moji `convert('ZE', 'HE')`: full-width ASCII variants become ASCII. */
  function FullToHalfAscii(s: string): string {
    seq(|s|, i requires 0 <= i < |s| => if IsFullWidthAscii(s[i]) then (s[i] as int - 0xFEE0) as char else s[i])
  }

  /** moji `convert('HG', 'KK')`: hiragana become the katakana at the same place in their block. */
  function HiraganaToKatakana(s: string): string {
    seq(|s|, i requires 0 <= i < |s| => if IsHiragana(s[i]) then (s[i] as int + 0x60) as char else s[i])
  }

  /** `replace(/\s+/g, '')`: every whitespace character is removed. */
  function StripSpaces(s: string): string {
    if s == [] then []
    else if IsJsSpace(s[0]) then StripSpaces(s[1..])
    else [s[0]] + StripSpaces(s[1..])
  }

  /** `toLowerCase()` on the ASCII letters. */
  function AsciiLower(s: string): string {
    seq(|s|, i requires 0 <= i < |s| => LowerChar(s[i]))
  }

  /** ASCII `toLowerCase()` on one character. */
  function LowerChar(c: char): char {
    if IsUpperAscii(c) then (c as int + 32) as char else c
  }

  /** `encode(text)`: the four moji conversions in order, then whitespace removal and lowering. */
  function Encode(hkToZk: string -> string, text: string): string {
    AsciiLower(StripSpaces(HiraganaToKatakana(FullToHalfAscii(FullToHalfSpace(hkToZk(text))))))
  }

  // ---------------------------------------------------------------------------
  // The canonical form

  /** Text that `encode` has nothing left to do on, for the half-width class `hk`. */
  predicate IsCanonical(s: string, hk: char -> bool) {
    forall i :: 0 <= i < |s| ==>
      !IsJsSpace(s[i]) && !IsUpperAscii(s[i]) && !IsFullWidthAscii(s[i]) && !IsHiragana(s[i]) && !hk(s[i])
  }

  /** Removing whitespace keeps only characters of the input, and no space. */
  lemma {:induction false} StripSpacesKeeps(s: string)
    ensures forall i :: 0 <= i < |StripSpaces(s)| ==> StripSpaces(s)[i] in s && !IsJsSpace(StripSpaces(s)[i])
  {
    if s != [] {
      StripSpacesKeeps(s[1..]);
    }
  }

  /** Removing whitespace from text without whitespace changes nothing. */
  lemma {:induction false} StripSpacesNone(s: string)
    requires forall i :: 0 <= i < |s| ==> !IsJsSpace(s[i])
    ensures StripSpaces(s) == s
  {
    if s != [] {
      StripSpacesNone(s[1..]);
    }
  }

  /**
   * The output of `encode` holds no whitespace, no upper-case ASCII letter,
   * no full-width ASCII variant, no hiragana and, when the half-width step
   * behaves as `HalfToFullWidth` says, none of the characters it rewrites.
   */
  lemma EncodeCanonical(hkToZk: string -> string, hk: char -> bool, text: string)
    requires HalfToFullWidth(hkToZk, hk)
    ensures IsCanonical(Encode(hkToZk, text), hk)
  {
    var k := hkToZk(text);
    assert NoneIn(k, hk);
    var h := HiraganaToKatakana(FullToHalfAscii(FullToHalfSpace(k)));
    forall i | 0 <= i < |h|
      ensures !IsFullWidthAscii(h[i]) && !IsHiragana(h[i]) && !hk(h[i])
    {
      assert hk(h[i]) ==> IsHalfWidthKana(h[i]);
    }
    StripSpacesKeeps(h);
    var t := StripSpaces(h);
    forall i | 0 <= i < |t|
      ensures !IsFullWidthAscii(t[i]) && !IsHiragana(t[i]) && !hk(t[i]) && !IsJsSpace(t[i])
    {
      var j :| 0 <= j < |h| && h[j] == t[i];
    }
    var r := AsciiLower(t);
    forall i | 0 <= i < |r|
      ensures !IsFullWidthAscii(r[i]) && !IsHiragana(r[i]) && !hk(r[i]) && !IsJsSpace(r[i]) && !IsUpperAscii(r[i])
    {
      assert hk(r[i]) ==> IsHalfWidthKana(r[i]);
    }
  }

  /** `encode` returns canonical text unchanged. */
  lemma EncodeFixesCanonical(hkToZk: string -> string, hk: char -> bool, s: string)
    requires HalfToFullWidth(hkToZk, hk)
    requires IsCanonical(s, hk)
    ensures Encode(hkToZk, s) == s
  {
    assert NoneIn(s, hk);
    assert hkToZk(s) == s;
    assert FullToHalfSpace(s) == s;
    assert FullToHalfAscii(s) == s;
    assert HiraganaToKatakana(s) == s;
    StripSpacesNone(s);
    assert AsciiLower(s) == s;
  }

  /** `encode` is idempotent: encoding a search text twice gives what encoding it once does. */
  lemma EncodeIdempotent(hkToZk: string -> string, hk: char -> bool, text: string)
    requires HalfToFullWidth(hkToZk, hk)
    ensures Encode(hkToZk, Encode(hkToZk, text)) == Encode(hkToZk, text)
  {
    EncodeCanonical(hkToZk, hk, text);
    EncodeFixesCanonical(hkToZk, hk, Encode(hkToZk, text));
  }

  /** `toUpperCase()` on the ASCII letters, the inverse direction to `AsciiLower`. */
  function AsciiUpper(s: string): string {
    seq(|s|, i requires 0 <= i < |s| => if 'a' <= s[i] <= 'z' then (s[i] as int - 32) as char else s[i])
  }

  /** The full-width variant of every printable ASCII character (U+0021..U+007E), the inverse of moji's ZE to HE. */
  function AsciiToFullWidth(s: string): string {
    seq(|s|, i requires 0 <= i < |s| => if '\U{0021}' <= s[i] <= '\U{007E}' then (s[i] as int + 0xFEE0) as char else s[i])
  }

  /**
   * Character width does not matter: for every text without half-width
   * katakana, writing its ASCII characters full-width does not change its encoding.
   */
  lemma EncodeWidthInsensitive(hkToZk: string -> string, hk: char -> bool, t: string)
    requires HalfToFullWidth(hkToZk, hk)
    requires NoneIn(t, hk)
    ensures Encode(hkToZk, AsciiToFullWidth(t)) == Encode(hkToZk, t)
  {
    var w := AsciiToFullWidth(t);
    assert forall c :: hk(c) ==> IsHalfWidthKana(c);
    assert NoneIn(w, hk);
    assert FullToHalfAscii(FullToHalfSpace(w)) == FullToHalfAscii(FullToHalfSpace(t));
  }

  /** Full-width "ＡＢＣ" encodes as "ABC" does. */
  lemma EncodeIgnoresWidth(hkToZk: string -> string, hk: char -> bool)
    requires HalfToFullWidth(hkToZk, hk)
    ensures Encode(hkToZk, "\U{FF21}\U{FF22}\U{FF23}") == Encode(hkToZk, "ABC")
  {
    assert AsciiToFullWidth("ABC") == "\U{FF21}\U{FF22}\U{FF23}";
    assert forall c :: hk(c) ==> IsHalfWidthKana(c);
    assert NoneIn("ABC", hk);
    EncodeWidthInsensitive(hkToZk, hk, "ABC");
  }

  /**
   * ASCII case does not matter: for every text without half-width
   * katakana, upper-casing its ASCII letters does not change its encoding.
   */
  lemma EncodeCaseInsensitive(hkToZk: string -> string, hk: char -> bool, t: string)
    requires HalfToFullWidth(hkToZk, hk)
    requires NoneIn(t, hk)
    ensures Encode(hkToZk, AsciiUpper(t)) == Encode(hkToZk, t)
  {
    var u := AsciiUpper(t);
    assert forall c :: hk(c) ==> IsHalfWidthKana(c);
    assert NoneIn(u, hk);
    var a := HiraganaToKatakana(FullToHalfAscii(FullToHalfSpace(u)));
    var b := HiraganaToKatakana(FullToHalfAscii(FullToHalfSpace(t)));
    forall i | 0 <= i < |a|
      ensures IsJsSpace(a[i]) == IsJsSpace(b[i]) && LowerChar(a[i]) == LowerChar(b[i])
    {
    }
    LowerStrip(a, b);
  }

  /**
   * Texts that agree, character by character, in whitespace and in lower
   * case, agree after whitespace removal and lowering.
   */
  lemma {:induction false} LowerStrip(a: string, b: string)
    requires |a| == |b|
    requires forall i :: 0 <= i < |a| ==> IsJsSpace(a[i]) == IsJsSpace(b[i]) && LowerChar(a[i]) == LowerChar(b[i])
    ensures AsciiLower(StripSpaces(a)) == AsciiLower(StripSpaces(b))
  {
    if a != [] {
      LowerStrip(a[1..], b[1..]);
      if !IsJsSpace(a[0]) {
        LowerCons(a[0], StripSpaces(a[1..]));
        LowerCons(b[0], StripSpaces(b[1..]));
      }
    }
  }

  lemma LowerCons(c: char, s: string)
    ensures AsciiLower([c] + s) == [LowerChar(c)] + AsciiLower(s)
  {
    assert forall i :: 1 <= i <= |s| ==> ([c] + s)[i] == s[i - 1];
  }

  /**
   * Kana script does not matter: for every text without half-width
   * katakana, turning its hiragana into katakana does not change its encoding.
   */
  lemma EncodeKanaInsensitive(hkToZk: string -> string, hk: char -> bool, t: string)
    requires HalfToFullWidth(hkToZk, hk)
    requires NoneIn(t, hk)
    ensures Encode(hkToZk, HiraganaToKatakana(t)) == Encode(hkToZk, t)
  {
    var k := HiraganaToKatakana(t);
    assert forall c :: hk(c) ==> IsHalfWidthKana(c);
    assert NoneIn(k, hk);
    assert HiraganaToKatakana(FullToHalfAscii(FullToHalfSpace(k)))
        == HiraganaToKatakana(FullToHalfAscii(FullToHalfSpace(t)));
  }

  /** ASCII case and ideographic spaces do not matter: "ABC" and "\U{3000}abc" encode alike. */
  lemma EncodeIgnoresCase(hkToZk: string -> string, hk: char -> bool)
    requires HalfToFullWidth(hkToZk, hk)
    ensures Encode(hkToZk, "ABC") == Encode(hkToZk, "\U{3000}abc") == "abc"
  {
    EncodeUpper(hkToZk, hk);
    EncodeSpaced(hkToZk, hk);
  }

  lemma EncodeUpper(hkToZk: string -> string, hk: char -> bool)
    requires HalfToFullWidth(hkToZk, hk)
    ensures Encode(hkToZk, "ABC") == "abc"
  {
    var upper := "ABC";
    assert NoneIn(upper, hk) by {
      assert forall c :: hk(c) ==> IsHalfWidthKana(c);
    }
    assert FullToHalfSpace(upper) == upper;
    assert FullToHalfAscii(upper) == upper;
    assert HiraganaToKatakana(upper) == upper;
    StripSpacesNone(upper);
    assert AsciiLower(upper) == "abc";
  }

  lemma EncodeSpaced(hkToZk: string -> string, hk: char -> bool)
    requires HalfToFullWidth(hkToZk, hk)
    ensures Encode(hkToZk, "\U{3000}abc") == "abc"
  {
    var spaced := "\U{3000}abc";
    assert NoneIn(spaced, hk) by {
      assert forall c :: hk(c) ==> IsHalfWidthKana(c);
    }
    assert FullToHalfSpace(spaced) == " abc";
    assert FullToHalfAscii(" abc") == " abc";
    assert HiraganaToKatakana(" abc") == " abc";
    assert StripSpaces(" abc") == "abc" by {
      assert " abc"[1..] == "abc";
      StripSpacesNone("abc");
    }
    assert AsciiLower("abc") == "abc";
  }

  /** Hiragana and katakana are interchangeable: "あいう" encodes as "アイウ" does. */
  lemma EncodeIgnoresKana(hkToZk: string -> string, hk: char -> bool)
    requires HalfToFullWidth(hkToZk, hk)
    ensures Encode(hkToZk, "あいう") == Encode(hkToZk, "アイウ") == "アイウ"
  {
    assert forall c :: hk(c) ==> IsHalfWidthKana(c);
    assert NoneIn("あいう", hk);
    EncodeFixesCanonical(hkToZk, hk, "アイウ");
    var hira := "あいう";
    assert FullToHalfSpace(hira) == hira;
    assert FullToHalfAscii(hira) == hira;
    assert HiraganaToKatakana(hira) == "アイウ";
  }
}
