/** Admission predicates and marker helpers (ValidationHelper). Arguments
    that Java allows to be null are `Option` values here. */
module Validation {
  import opened Wrappers
  import opened Seqs
  import opened Unicode

  /** Every character of `w` is a letter or a digit (the loop shared by the
      one-argument `shouldEncodeWord` and `isAlphanumericWord`). */
  function AllLetterOrDigit(cc: CharClasses, w: string): (b: bool)
    ensures b <==> forall i :: 0 <= i < |w| ==> cc.isLetterOrDigit(w[i])
    decreases |w|
  {
    if |w| == 0 then true
    else cc.isLetterOrDigit(w[0]) && AllLetterOrDigit(cc, w[1..])
  }

  /** One-argument `shouldEncodeWord`: at least four characters, all of
      them letters or digits. */
  function ShouldEncodeWord(cc: CharClasses, word: Option<string>): (b: bool)
    ensures b <==> word.Some? && |word.value| >= 4
                   && forall i :: 0 <= i < |word.value| ==> cc.isLetterOrDigit(word.value[i])
  {
    match word
    case None => false
    case Some(w) => |w| >= 4 && AllLetterOrDigit(cc, w)
  }

  /** Five-argument `shouldEncodeWord`: two-character words need
      `minLengthForTwoChars` occurrences whatever `minLength` is, words of
      at least `minLength` characters need `minFrequency`, all others are
      refused. */
  function ShouldEncodeWordWithFrequency(word: Option<string>, frequency: int, minLength: int,
                                         minFrequency: int, minLengthForTwoChars: int): (b: bool)
    ensures word.None? || |word.value| < 2 ==> !b
    ensures word.Some? && |word.value| == 2 ==> (b <==> frequency >= minLengthForTwoChars)
    ensures word.Some? && |word.value| > 2 && |word.value| >= minLength ==> (b <==> frequency >= minFrequency)
    ensures word.Some? && 2 < |word.value| < minLength ==> !b
  {
    match word
    case None => false
    case Some(w) =>
      if |w| < 2 then false
      else if |w| == 2 then frequency >= minLengthForTwoChars
      else if |w| >= minLength then frequency >= minFrequency
      else false
  }

  /** Admission is monotone in the frequency: a word admitted at one
      frequency is admitted at every higher one. */
  lemma ShouldEncodeMonotone(word: Option<string>, f: int, g: int, minLength: int,
                             minFrequency: int, minLengthForTwoChars: int)
    requires f <= g
    requires ShouldEncodeWordWithFrequency(word, f, minLength, minFrequency, minLengthForTwoChars)
    ensures ShouldEncodeWordWithFrequency(word, g, minLength, minFrequency, minLengthForTwoChars)
  {
  }

  /** `isAlphanumericWord`: false for null, true for the empty string,
      otherwise every character is a letter or a digit. */
  function IsAlphanumericWord(cc: CharClasses, word: Option<string>): (b: bool)
    ensures word.None? ==> !b
    ensures word == Some("") ==> b
    ensures word.Some? ==> (b <==> forall i :: 0 <= i < |word.value| ==> cc.isLetterOrDigit(word.value[i]))
  {
    match word
    case None => false
    case Some(w) => AllLetterOrDigit(cc, w)
  }

  /** The one-argument `shouldEncodeWord` is `isAlphanumericWord` plus the
      length floor of four. */
  lemma ShouldEncodeIsLongAlphanumeric(cc: CharClasses, w: string)
    ensures ShouldEncodeWord(cc, Some(w)) <==> |w| >= 4 && IsAlphanumericWord(cc, Some(w))
  {
  }

  /** `containsSaberWSymbols`: the text holds the group marker or the
      lower-case marker. */
  function ContainsSaberWSymbols(text: Option<string>): (b: bool)
    ensures b <==> text.Some? && (GroupMarker in text.value || LowerCaseMarker in text.value)
  {
    match text
    case None => false
    case Some(t) =>
      OneCharSubstring(GroupMarker, t);
      OneCharSubstring(LowerCaseMarker, t);
      Contains(t, [GroupMarker]) || Contains(t, [LowerCaseMarker])
  }

  lemma OneCharSubstring(c: char, t: string)
    ensures IsSubstring([c], t) <==> c in t
  {
    if c in t {
      var i :| 0 <= i < |t| && t[i] == c;
      assert OccursAt([c], t, i);
    }
    if IsSubstring([c], t) {
      var i :| OccursAt([c], t, i);
      assert t[i] == [c][0];
    }
  }

  /** Java `String.replace` with a one-character target: every occurrence
      of `c` is replaced by `rep`. */
  function ReplaceChar(s: string, c: char, rep: string): (r: string)
    ensures |r| == |s| + Count(s, c) * (|rep| - 1)
    ensures c !in s ==> r == s
    ensures |s| == 1 ==> r == (if s[0] == c then rep else s)
    decreases |s|
  {
    if |s| == 0 then ""
    else
      var init, x := s[..|s| - 1], s[|s| - 1];
      var prev := ReplaceChar(init, c, rep);
      assert s == init + [x];
      if x == c then
        MulStep(|init|, Count(init, c), |rep| - 1);
        prev + rep
      else
        prev + [x]
  }

  /** The length step of one replaced occurrence. */
  lemma MulStep(n: int, k: int, m: int)
    ensures n + k * m + (m + 1) == (n + 1) + (k + 1) * m
  {
  }

  /** The replacement works piece by piece: together with the one-character
      case above, each occurrence of `c` becomes `rep` where it stands and
      every other character is kept. */
  lemma {:induction false} ReplaceCharAppend(a: string, b: string, c: char, rep: string)
    ensures ReplaceChar(a + b, c, rep) == ReplaceChar(a, c, rep) + ReplaceChar(b, c, rep)
    decreases |b|
  {
    if |b| > 0 {
      var init := b[..|b| - 1];
      assert (a + b)[..|a + b| - 1] == a + init;
      assert (a + b)[|a + b| - 1] == b[|b| - 1];
      ReplaceCharAppend(a, init, c, rep);
    } else {
      assert a + b == a;
    }
  }

  /** Doubling `c` doubles its count... */
  lemma {:induction false} DoubleCharCount(s: string, c: char)
    ensures Count(ReplaceChar(s, c, [c, c]), c) == 2 * Count(s, c)
    decreases |s|
  {
    if |s| > 0 {
      var init := s[..|s| - 1];
      var x := s[|s| - 1];
      var last := if x == c then [c, c] else [x];
      assert ReplaceChar(s, c, [c, c]) == ReplaceChar(init, c, [c, c]) + last;
      DoubleCharCount(init, c);
      CountAppend(ReplaceChar(init, c, [c, c]), last, c);
      if x == c {
        CountAppend([c], [c], c);
        assert [c] + [c] == [c, c];
      } else {
        CountSingle(x, c);
      }
    }
  }

  /** ...and leaves the count of every other character alone. */
  lemma {:induction false} DoubleCharOtherCount(s: string, c: char, d: char)
    requires d != c
    ensures Count(ReplaceChar(s, c, [c, c]), d) == Count(s, d)
    decreases |s|
  {
    if |s| > 0 {
      var init := s[..|s| - 1];
      var x := s[|s| - 1];
      var last := if x == c then [c, c] else [x];
      assert ReplaceChar(s, c, [c, c]) == ReplaceChar(init, c, [c, c]) + last;
      DoubleCharOtherCount(init, c, d);
      CountAppend(ReplaceChar(init, c, [c, c]), last, d);
      if x == c {
        CountAppend([c], [c], d);
        assert [c] + [c] == [c, c];
        CountSingle(c, d);
      } else {
        CountSingle(x, d);
      }
    }
  }

  /** The escape of one character: a marker is written twice, anything
      else once. */
  function EscapeOne(x: char): string {
    if x == GroupMarker || x == LowerCaseMarker then [x, x] else [x]
  }

  /** Escaping character by character, left to right. */
  function EscapeEach(t: string): string
    decreases |t|
  {
    if |t| == 0 then "" else EscapeOne(t[0]) + EscapeEach(t[1..])
  }

  /** Reads an escaped text back: a doubled marker is one marker. */
  function Unescape(s: string): string
    decreases |s|
  {
    if |s| == 0 then ""
    else if |s| >= 2 && (s[0] == GroupMarker || s[0] == LowerCaseMarker) && s[1] == s[0]
    then [s[0]] + Unescape(s[2..])
    else [s[0]] + Unescape(s[1..])
  }

  /** `escapeSaberWSymbols`: doubles every group marker, then every
      lower-case marker; null stays null. */
  function EscapeSaberWSymbols(text: Option<string>): (r: Option<string>)
    ensures text.None? <==> r.None?
    ensures text.Some? ==> |r.value| == |text.value| + Count(text.value, GroupMarker)
                                                     + Count(text.value, LowerCaseMarker)
    ensures text.Some? ==> Count(r.value, GroupMarker) == 2 * Count(text.value, GroupMarker)
    ensures text.Some? ==> Count(r.value, LowerCaseMarker) == 2 * Count(text.value, LowerCaseMarker)
    ensures text.Some? ==> r.value == EscapeEach(text.value)
    ensures text.Some? ==> Unescape(r.value) == text.value
  {
    match text
    case None => None
    case Some(t) =>
      var once := ReplaceChar(t, GroupMarker, [GroupMarker, GroupMarker]);
      EscapeCounts(t);
      EscapeIsEach(t);
      UnescapeEscape(t);
      Some(ReplaceChar(once, LowerCaseMarker, [LowerCaseMarker, LowerCaseMarker]))
  }

  /** The two whole-text replacements escape each character in place. */
  lemma {:induction false} EscapeIsEach(t: string)
    ensures ReplaceChar(ReplaceChar(t, GroupMarker, [GroupMarker, GroupMarker]),
                        LowerCaseMarker, [LowerCaseMarker, LowerCaseMarker]) == EscapeEach(t)
    decreases |t|
  {
    if |t| > 0 {
      var head, tail := [t[0]], t[1..];
      assert t == head + tail;
      var g, l := [GroupMarker, GroupMarker], [LowerCaseMarker, LowerCaseMarker];
      ReplaceCharAppend(head, tail, GroupMarker, g);
      ReplaceCharAppend(ReplaceChar(head, GroupMarker, g), ReplaceChar(tail, GroupMarker, g), LowerCaseMarker, l);
      EscapeOneReplaced(t[0]);
      EscapeIsEach(tail);
    }
  }

  lemma EscapeOneReplaced(x: char)
    ensures ReplaceChar(ReplaceChar([x], GroupMarker, [GroupMarker, GroupMarker]),
                        LowerCaseMarker, [LowerCaseMarker, LowerCaseMarker]) == EscapeOne(x)
  {
    if x == GroupMarker {
      ReplaceCharAppend([GroupMarker], [GroupMarker], LowerCaseMarker, [LowerCaseMarker, LowerCaseMarker]);
      assert [GroupMarker] + [GroupMarker] == [GroupMarker, GroupMarker];
    }
  }

  /** Unescaping undoes the escape. */
  lemma {:induction false} UnescapeEscape(t: string)
    ensures Unescape(EscapeEach(t)) == t
    decreases |t|
  {
    if |t| > 0 {
      var rest := EscapeEach(t[1..]);
      var s := EscapeOne(t[0]) + rest;
      UnescapeEscape(t[1..]);
      if t[0] == GroupMarker || t[0] == LowerCaseMarker {
        assert s[2..] == rest;
      } else {
        assert s[1..] == rest;
      }
      assert t == [t[0]] + t[1..];
    }
  }

  lemma EscapeCounts(t: string)
    ensures var once := ReplaceChar(t, GroupMarker, [GroupMarker, GroupMarker]);
            var twice := ReplaceChar(once, LowerCaseMarker, [LowerCaseMarker, LowerCaseMarker]);
            && |twice| == |t| + Count(t, GroupMarker) + Count(t, LowerCaseMarker)
            && Count(twice, GroupMarker) == 2 * Count(t, GroupMarker)
            && Count(twice, LowerCaseMarker) == 2 * Count(t, LowerCaseMarker)
  {
    var once := ReplaceChar(t, GroupMarker, [GroupMarker, GroupMarker]);
    DoubleCharCount(t, GroupMarker);
    DoubleCharOtherCount(t, GroupMarker, LowerCaseMarker);
    DoubleCharCount(once, LowerCaseMarker);
    DoubleCharOtherCount(once, LowerCaseMarker, GroupMarker);
    var twice := ReplaceChar(once, LowerCaseMarker, [LowerCaseMarker, LowerCaseMarker]);
    assert |once| == |t| + Count(t, GroupMarker) * 1;
    assert |twice| == |once| + Count(once, LowerCaseMarker) * 1;
  }

  /** The twenty substrings that mark a text as program source. */
  const CodeIndicators: seq<string> := [
    "public ", "private ", "class ", "void ", "return ",
    "import ", "package ", "System.out", "for (", "if (",
    "while (", "try {", "catch (", "def ", "func ",
    "<?php", "<html", "<script", "#include", "using "
  ]

  function AnyIndicator(t: string, k: nat): (b: bool)
    requires k <= |CodeIndicators|
    ensures b <==> exists j :: k <= j < |CodeIndicators| && IsSubstring(CodeIndicators[j], t)
    decreases |CodeIndicators| - k
  {
    if k == |CodeIndicators| then false
    else Contains(t, CodeIndicators[k]) || AnyIndicator(t, k + 1)
  }

  /** `isLikelySourceCode`: false for null or fewer than ten characters,
      otherwise true iff one of the indicators occurs in the text. */
  function IsLikelySourceCode(text: Option<string>): (b: bool)
    ensures b <==> text.Some? && |text.value| >= 10
                   && exists j :: 0 <= j < |CodeIndicators| && IsSubstring(CodeIndicators[j], text.value)
  {
    match text
    case None => false
    case Some(t) => |t| >= 10 && AnyIndicator(t, 0)
  }
}
