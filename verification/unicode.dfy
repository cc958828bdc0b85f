/** The Unicode character classes the codec consults, kept abstract: the
    model never fixes Java's category tables, it receives them as a value
    of `CharClasses` and relies only on the few facts in `WellFormed`.
    Java `char` is a UTF-16 unit; every constant below lies in the Basic
    Multilingual Plane. */
module Unicode {

  datatype CharClasses = CharClasses(
    /** Regex class [\p{L}\p{N}]: any letter or any number. */
    isLetterOrNumber: char -> bool,
    /** Character.isLetterOrDigit: a letter or a decimal digit. */
    isLetterOrDigit: char -> bool,
    /** Character.isDigit: a decimal digit of any script. */
    isDigit: char -> bool,
    /** Character.toLowerCase on one char. */
    toLowerCase: char -> char)

  /** Group-record marker, U+25CF BLACK CIRCLE. */
  const GroupMarker: char := '\U{25CF}'
  /** Leading "text was lower-cased" marker, U+2193 DOWNWARDS ARROW. */
  const LowerCaseMarker: char := '\U{2193}'

  predicate IsAsciiDigit(c: char) { '0' <= c <= '9' }

  predicate IsAsciiLetter(c: char) { 'a' <= c <= 'z' || 'A' <= c <= 'Z' }

  /** The facts about Java's tables that the proofs use: ASCII digits are
      decimal digits, decimal digits are letters-or-digits, those are
      letters-or-numbers, ASCII letters are letters, the space, the
      underscore and the two markers are neither, lower-casing maps ASCII
      upper case to ASCII lower case, and the two markers (which have no
      case) are lower-cased to themselves and from nothing else. */
  ghost predicate WellFormed(cc: CharClasses) {
    && (forall c :: IsAsciiDigit(c) ==> cc.isDigit(c))
    && (forall c :: cc.isDigit(c) ==> cc.isLetterOrDigit(c))
    && (forall c :: cc.isLetterOrDigit(c) ==> cc.isLetterOrNumber(c))
    && (forall c :: IsAsciiLetter(c) ==> cc.isLetterOrDigit(c))
    && !cc.isLetterOrNumber(' ')
    && !cc.isLetterOrNumber('_')
    && !cc.isLetterOrNumber(GroupMarker)
    && !cc.isLetterOrNumber(LowerCaseMarker)
    && (forall c :: 'A' <= c <= 'Z' ==> cc.toLowerCase(c) == (c as int + 32) as char)
    && (forall c :: 'a' <= c <= 'z' ==> cc.toLowerCase(c) == c)
    && (forall c :: cc.toLowerCase(c) == GroupMarker <==> c == GroupMarker)
    && (forall c :: cc.toLowerCase(c) == LowerCaseMarker <==> c == LowerCaseMarker)
  }

  /** One value satisfying `WellFormed`, so that lemmas about well-formed
      tables are not vacuous: ASCII-only classes. */
  function AsciiClasses(): (cc: CharClasses)
    ensures WellFormed(cc)
  {
    CharClasses(
      c => IsAsciiDigit(c) || IsAsciiLetter(c),
      c => IsAsciiDigit(c) || IsAsciiLetter(c),
      c => IsAsciiDigit(c),
      c => if 'A' <= c <= 'Z' then (c as int + 32) as char else c)
  }

  /** The characters of a string, as a set (the source's
      `collectCharacters` / `collectUniqueChars`). */
  function CharSet(s: string): (r: set<char>)
    ensures forall c :: c in r <==> c in s
  {
    set c | c in s
  }

  /** The two characters of `s` starting at `i`. */
  function BigramAt(s: string, i: nat): (b: string)
    requires i + 1 < |s|
    ensures |b| == 2 && b == s[i..i + 2]
  {
    [s[i], s[i + 1]]
  }

  /** The adjacent character pairs of a string (the source's
      `collectBigrams`). */
  function Bigrams(s: string): (r: set<string>)
    ensures forall i :: 0 <= i < |s| - 1 ==> BigramAt(s, i) in r
    ensures forall b :: b in r ==> |b| == 2 && exists i :: 0 <= i < |s| - 1 && BigramAt(s, i) == b
  {
    set i | 0 <= i < |s| - 1 :: BigramAt(s, i)
  }
}
