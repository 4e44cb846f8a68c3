/**
 * Character classes used by the site's regular expressions, as predicates on
 * single UTF-16 code units (every range the site uses lies in the Basic
 * Multilingual Plane).
 */
module Chars {

  /**
   * ECMAScript WhiteSpace and LineTerminator code points: exactly what the
   * regular-expression class `\s` matches and what `String.prototype.trim`
   * removes (tab, line feed, vertical tab, form feed, carriage return, the
   * space separators of category Zs, the two line/paragraph separators and
   * the byte-order mark).
   */
  predicate IsSpace(c: char) {
    c == '\t' || c == '\n' || c == '\U{000B}' || c == '\U{000C}' || c == '\r'
    || c == ' ' || c == '\U{00A0}' || c == '\U{1680}' || '\U{2000}' <= c <= '\U{200A}'
    || c == '\U{2028}' || c == '\U{2029}' || c == '\U{202F}' || c == '\U{205F}'
    || c == '\U{3000}' || c == '\U{FEFF}'
  }

  predicate IsAsciiUpper(c: char) { 'A' <= c <= 'Z' }

  predicate IsAsciiLower(c: char) { 'a' <= c <= 'z' }

  predicate IsDigit(c: char) { '0' <= c <= '9' }

  /** A word character of a regular expression without the `u` and `i` flags: an ASCII letter, digit or `_`. */
  predicate IsWordChar(c: char) {
    IsAsciiUpper(c) || IsAsciiLower(c) || IsDigit(c) || c == '_'
  }

  /** `ぁ-ん` (U+3041 to U+3093). */
  predicate IsHiragana(c: char) { '\U{3041}' <= c <= '\U{3093}' }

  /** `ァ-ヶ` (U+30A1 to U+30F6). */
  predicate IsKatakanaToKe(c: char) { '\U{30A1}' <= c <= '\U{30F6}' }

  /** `一-龠` (U+4E00 to U+9FA0). */
  predicate IsKanjiToYaku(c: char) { '\U{4E00}' <= c <= '\U{9FA0}' }

  /** `ｦ-ﾟ`: the half-width katakana block U+FF66 to U+FF9F. */
  predicate IsHalfwidthKatakana(c: char) { '\U{FF66}' <= c <= '\U{FF9F}' }

  /** The prolonged sound mark `ー` (U+30FC). */
  const ProlongedSoundMark: char := '\U{30FC}'

  /** The iteration mark `々` (U+3005). */
  const IterationMark: char := '\U{3005}'

  /** The ideographic (full-width) space U+3000. */
  const IdeographicSpace: char := '\U{3000}'

  /**
   * The characters the symbol-stripping step of slug generation keeps: word
   * characters, `-`, 一-龠, ぁ-ん, ァ-ヶ and ー.
   */
  predicate IsSlugChar(c: char) {
    IsWordChar(c) || c == '-' || IsKanjiToYaku(c) || IsHiragana(c)
    || IsKatakanaToKe(c) || c == ProlongedSoundMark
  }

  /** The Markdown marker characters the feed description blanks out: # > * _ ~ and -. */
  predicate IsMdMarker(c: char) {
    c == '#' || c == '>' || c == '*' || c == '_' || c == '~' || c == '-'
  }

  /** ASCII-only `toLowerCase` of one code unit. */
  function ToLowerAscii(c: char): (r: char)
    ensures !IsAsciiUpper(r)
    ensures IsAsciiUpper(c) ==> IsAsciiLower(r) && r as int == c as int + 32
    ensures !IsAsciiUpper(c) ==> r == c
  {
    if IsAsciiUpper(c) then (c as int + 32) as char else c
  }
}
