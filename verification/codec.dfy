/** Machinery shared by both codecs: the code-to-word lookup a decoder
    builds from a dictionary, the expansion of one-symbol codes back into
    words, the replace-every-occurrence scan of the encoders (with or
    without the whole-word boundary test) and runs of code symbols. */
module Codec {
  import opened Wrappers
  import opened Seqs
  import opened Unicode
  import opened Model

  /** The decoder's `codeToWord` map: every entry put in order, so a later
      entry overrides an earlier one with the same code. */
  function CodeMap(d: seq<DictEntry>): (m: map<string, string>)
    ensures forall c :: c in m <==> c in Codes(d)
    decreases |d|
  {
    if |d| == 0 then map[]
    else
      var init := d[..|d| - 1];
      assert Codes(d) == Codes(init) + [d[|d| - 1].code];
      CodeMap(init)[d[|d| - 1].code := d[|d| - 1].word]
  }

  /** An entry not overridden by a later entry with the same code is what
      the lookup returns for that code. */
  lemma {:induction false} CodeMapLastWins(d: seq<DictEntry>, i: nat)
    requires i < |d|
    requires forall j :: i < j < |d| ==> d[j].code != d[i].code
    ensures d[i].code in CodeMap(d) && CodeMap(d)[d[i].code] == d[i].word
    decreases |d|
  {
    if i < |d| - 1 {
      CodeMapLastWins(d[..|d| - 1], i);
    }
  }

  /** With pairwise distinct codes every entry is found under its code. */
  lemma CodeMapDistinct(d: seq<DictEntry>, i: nat)
    requires Distinct(Codes(d)) && i < |d|
    ensures d[i].code in CodeMap(d) && CodeMap(d)[d[i].code] == d[i].word
  {
    forall j | i < j < |d| ensures d[j].code != d[i].code {
      assert Codes(d)[j] == d[j].code && Codes(d)[i] == d[i].code;
    }
    CodeMapLastWins(d, i);
  }

  /** The `singleCharCodes` set: the symbols of the one-symbol codes. */
  function SingleCodes(d: seq<DictEntry>): (s: set<char>)
    ensures forall c :: c in s <==> [c] in Codes(d)
    decreases |d|
  {
    if |d| == 0 then {}
    else
      var init := d[..|d| - 1];
      var last := d[|d| - 1].code;
      assert Codes(d) == Codes(init) + [last];
      assert |last| == 1 ==> last == [last[0]];
      SingleCodes(init) + (if |last| == 1 then {last[0]} else {})
  }

  /** Every code of the dictionary is one symbol long. */
  predicate AllSingle(d: seq<DictEntry>) {
    forall i :: 0 <= i < |d| ==> |d[i].code| == 1
  }

  /** With one-symbol codes only, the lookup holds exactly the singles. */
  lemma SingleKeys(d: seq<DictEntry>)
    requires AllSingle(d)
    ensures forall c :: c in SingleCodes(d) <==> [c] in CodeMap(d)
    ensures forall k :: k in CodeMap(d) ==> |k| == 1
  {
  }

  /** The decoder's lookup holds one-symbol keys only, exactly the symbols
      of `singles`. */
  predicate SingleLookup(m: map<string, string>, singles: set<char>) {
    && (forall c :: c in singles <==> [c] in m)
    && (forall k :: k in m ==> |k| == 1)
  }

  /** No character of `s` is a one-symbol code of `m`. */
  predicate CodeFree(m: map<string, string>, s: string) {
    forall i :: 0 <= i < |s| ==> [s[i]] !in m
  }

  /** The decoded form of one character: the word of a one-symbol code,
      otherwise the character itself. */
  function ExpandChar(m: map<string, string>, c: char): string {
    if [c] in m then m[[c]] else [c]
  }

  /** Every character replaced by its decoded form. */
  function Expand(m: map<string, string>, s: string): (r: string)
    ensures CodeFree(m, s) ==> r == s
    decreases |s|
  {
    if |s| == 0 then "" else ExpandChar(m, s[0]) + Expand(m, s[1..])
  }

  lemma {:induction false} ExpandAppend(m: map<string, string>, a: string, b: string)
    ensures Expand(m, a + b) == Expand(m, a) + Expand(m, b)
    decreases |a|
  {
    if |a| == 0 {
      assert a + b == b;
    } else {
      assert (a + b)[0] == a[0];
      assert (a + b)[1..] == a[1..] + b;
      ExpandAppend(m, a[1..], b);
    }
  }

  /** The source's `isWholeWord` on the buffer `text`: the `length`
      characters at `start` are neither preceded nor followed by a letter
      or digit. */
  predicate IsWholeWord(cc: CharClasses, text: string, start: nat, length: nat)
    requires start + length <= |text|
    ensures WellFormed(cc) && (start == 0 || text[start - 1] == ' ') &&
            (start + length == |text| || text[start + length] == ' ')
            ==> IsWholeWord(cc, text, start, length)
    ensures WellFormed(cc) && start > 0 && IsAsciiLetter(text[start - 1]) ==> !IsWholeWord(cc, text, start, length)
    ensures WellFormed(cc) && start + length < |text| && IsAsciiLetter(text[start + length])
            ==> !IsWholeWord(cc, text, start, length)
  {
    && !(start > 0 && cc.isLetterOrDigit(text[start - 1]))
    && !(start + length < |text| && cc.isLetterOrDigit(text[start + length]))
  }

  /** The encoders' search-and-replace loop on the buffer `done + rest`,
      with the search index at `|done|`: where `word` starts (and, when
      `wholeOnly`, stands as a whole word) it becomes `code` and the search
      resumes after the code; otherwise the search moves on one character.
      A search from an index finds the first occurrence at or after it, so
      stepping one character at a time visits the same occurrences. */
  function ReplaceFrom(cc: CharClasses, wholeOnly: bool, done: string, rest: string,
                       word: string, code: string): (r: string)
    requires |word| > 0
    ensures |r| >= |done| && r[..|done|] == done
    ensures forall c :: c in r ==> c in done || c in rest || c in code
    decreases |rest|
  {
    if |rest| < |word| then done + rest
    else if rest[..|word|] == word && (!wholeOnly || IsWholeWord(cc, done + rest, |done|, |word|)) then
      var r := ReplaceFrom(cc, wholeOnly, done + code, rest[|word|..], word, code);
      assert r[..|done|] == (r[..|done + code|])[..|done|];
      assert forall c :: c in rest[|word|..] ==> c in rest;
      r
    else
      var r := ReplaceFrom(cc, wholeOnly, done + [rest[0]], rest[1..], word, code);
      assert r[..|done|] == (r[..|done| + 1])[..|done|];
      r
  }

  /** Every occurrence of `word` in `text` (whole occurrences only when
      `wholeOnly`) replaced by `code`, left to right. */
  function Replace(cc: CharClasses, wholeOnly: bool, text: string, word: string, code: string): (r: string)
    requires |word| > 0
    ensures forall c :: c in r ==> c in text || c in code
  {
    ReplaceFrom(cc, wholeOnly, "", text, word, code)
  }

  /** Putting a one-symbol code of `word` in place of `word` leaves the
      expansion unchanged. */
  lemma ExpandSplice(m: map<string, string>, done: string, word: string, code: string, tail: string)
    requires |code| == 1 && code in m && m[code] == word && CodeFree(m, word)
    ensures Expand(m, done + code + tail) == Expand(m, done + word + tail)
  {
    assert code == [code[0]];
    assert Expand(m, code[1..]) == "";
    assert Expand(m, code) == word;
    ExpandAppend(m, done + code, tail);
    ExpandAppend(m, done, code);
    ExpandAppend(m, done + word, tail);
    ExpandAppend(m, done, word);
  }

  /** A replacement by a one-symbol code of `word` leaves the expansion of
      the buffer unchanged: decoding undoes every substitution made. */
  lemma {:induction false} ReplaceFromExpands(cc: CharClasses, wholeOnly: bool, done: string, rest: string,
                                              word: string, code: string, m: map<string, string>)
    requires |word| > 0 && |code| == 1
    requires code in m && m[code] == word && CodeFree(m, word)
    ensures Expand(m, ReplaceFrom(cc, wholeOnly, done, rest, word, code)) == Expand(m, done + rest)
    decreases |rest|
  {
    if |rest| < |word| {
    } else if rest[..|word|] == word && (!wholeOnly || IsWholeWord(cc, done + rest, |done|, |word|)) {
      var tail := rest[|word|..];
      ReplaceFromExpands(cc, wholeOnly, done + code, tail, word, code, m);
      ExpandSplice(m, done, word, code, tail);
      AppendSplit(done, rest, |word|);
    } else {
      ReplaceFromExpands(cc, wholeOnly, done + [rest[0]], rest[1..], word, code, m);
      AppendHead(done, rest);
    }
  }

  /** The first character of the result is the text's first character or
      the code's. */
  lemma ReplaceFirst(cc: CharClasses, wholeOnly: bool, text: string, word: string, code: string)
    requires |word| > 0 && |code| > 0
    ensures var r := Replace(cc, wholeOnly, text, word, code);
            |r| > 0 ==> |text| > 0 && (r[0] == text[0] || r[0] == code[0])
  {
    var r := Replace(cc, wholeOnly, text, word, code);
    if |text| >= |word| {
      if text[..|word|] == word && (!wholeOnly || IsWholeWord(cc, "" + text, 0, |word|)) {
        assert r[..|code|] == code;
      } else {
        assert r[..1] == [text[0]];
      }
    }
  }

  /** A step of the scan that replaces an occurrence. */
  lemma ReplaceHit(cc: CharClasses, wholeOnly: bool, done: string, rest: string, word: string, code: string)
    requires |word| > 0 && |rest| >= |word| && rest[..|word|] == word
    requires !wholeOnly || IsWholeWord(cc, done + rest, |done|, |word|)
    ensures ReplaceFrom(cc, wholeOnly, done, rest, word, code)
            == ReplaceFrom(cc, wholeOnly, done + code, rest[|word|..], word, code)
  {
  }

  /** A step of the scan that copies one character. */
  lemma ReplaceSkip(cc: CharClasses, wholeOnly: bool, done: string, rest: string, word: string, code: string)
    requires |word| > 0 && |rest| >= |word|
    requires rest[..|word|] != word || (wholeOnly && !IsWholeWord(cc, done + rest, |done|, |word|))
    ensures ReplaceFrom(cc, wholeOnly, done, rest, word, code)
            == ReplaceFrom(cc, wholeOnly, done + [rest[0]], rest[1..], word, code)
  {
  }

  /** With the whole-word test, an occurrence followed by a letter is kept:
      "catalog" is not replaced inside "catalogs", only where it stands
      alone. */
  lemma CatalogKeptInCatalogs(cc: CharClasses)
    requires WellFormed(cc)
    ensures Replace(cc, true, "catalog catalogs", "catalog", "#") == "# catalogs"
  {
    CatalogFirst(cc);
    CatalogSecond(cc);
    CatalogLast(cc);
  }

  /** When the rest is as long as the word and is not the word, the scan
      copies it unchanged. */
  lemma ReplaceMissLast(cc: CharClasses, wholeOnly: bool, done: string, rest: string, word: string, code: string)
    requires |word| > 0 && |rest| == |word| && rest[..|word|] != word
    ensures ReplaceFrom(cc, wholeOnly, done, rest, word, code) == done + rest
  {
    ReplaceSkip(cc, wholeOnly, done, rest, word, code);
    assert done + [rest[0]] + rest[1..] == done + rest;
  }

  lemma CatalogFirst(cc: CharClasses)
    requires WellFormed(cc)
    ensures Replace(cc, true, "catalog catalogs", "catalog", "#") == ReplaceFrom(cc, true, "# ", "catalogs", "catalog", "#")
  {
    var w := "catalog";
    assert "catalog catalogs"[..7] == w && "catalog catalogs"[7..] == " catalogs";
    assert !cc.isLetterOrDigit("catalog catalogs"[7]);
    assert IsWholeWord(cc, "" + "catalog catalogs", 0, 7);
    ReplaceHit(cc, true, "", "catalog catalogs", w, "#");
    assert "" + "#" == "#";
    assert " catalogs"[..7] != w && " catalogs"[1..] == "catalogs";
    ReplaceSkip(cc, true, "#", " catalogs", w, "#");
    assert "#" + [" catalogs"[0]] == "# ";
  }

  lemma CatalogLast(cc: CharClasses)
    ensures ReplaceFrom(cc, true, "# c", "atalogs", "catalog", "#") == "# catalogs"
  {
    assert "atalogs"[..7][0] != "catalog"[0];
    ReplaceMissLast(cc, true, "# c", "atalogs", "catalog", "#");
    assert "# c" + "atalogs" == "# catalogs";
  }

  lemma CatalogSecond(cc: CharClasses)
    requires WellFormed(cc)
    ensures ReplaceFrom(cc, true, "# ", "catalogs", "catalog", "#") == ReplaceFrom(cc, true, "# c", "atalogs", "catalog", "#")
  {
    assert ("# " + "catalogs")[9] == 's' && IsAsciiLetter('s');
    assert !IsWholeWord(cc, "# " + "catalogs", 2, 7);
    assert "catalogs"[1..] == "atalogs";
    ReplaceSkip(cc, true, "# ", "catalogs", "catalog", "#");
  }

  function WordLength(e: DictEntry): int {
    |e.word|
  }

  /** Every word of the dictionary is non-empty. */
  predicate NonEmptyWords(d: seq<DictEntry>) {
    forall i :: 0 <= i < |d| ==> |d[i].word| > 0
  }

  /** Sorting by word length keeps the entries. */
  lemma SortByLength(d: seq<DictEntry>)
    ensures forall e :: e in SortDesc(d, WordLength) <==> e in d
    ensures NonEmptyWords(d) ==> NonEmptyWords(SortDesc(d, WordLength))
  {
    var sorted := SortDesc(d, WordLength);
    SortDescMembers(d, WordLength);
    if NonEmptyWords(d) {
      forall i | 0 <= i < |sorted| ensures |sorted[i].word| > 0 {
        assert sorted[i] in d;
      }
    }
  }

  /** Substitutions applied one entry after another. */
  function ApplyEntries(cc: CharClasses, wholeOnly: bool, text: string, es: seq<DictEntry>): (r: string)
    requires NonEmptyWords(es)
    decreases |es|
  {
    if |es| == 0 then text
    else ApplyEntries(cc, wholeOnly, Replace(cc, wholeOnly, text, es[0].word, es[0].code), es[1..])
  }

  /** A character not in the text and in no code is not in the result. */
  lemma {:induction false} ApplyEntriesAvoids(cc: CharClasses, wholeOnly: bool, text: string,
                                              es: seq<DictEntry>, x: char)
    requires NonEmptyWords(es)
    requires x !in text && forall i :: 0 <= i < |es| ==> x !in es[i].code
    ensures x !in ApplyEntries(cc, wholeOnly, text, es)
    decreases |es|
  {
    if |es| > 0 {
      forall i | 0 <= i < |es| - 1 ensures es[1..][i] == es[i + 1] { }
      ApplyEntriesAvoids(cc, wholeOnly, Replace(cc, wholeOnly, text, es[0].word, es[0].code), es[1..], x);
    }
  }

  /** The encoders' substitution of a whole dictionary: entries taken
      longest word first (a stable sort, so equal lengths keep dictionary
      order). */
  function Encode(cc: CharClasses, wholeOnly: bool, text: string, d: seq<DictEntry>): (r: string)
    requires NonEmptyWords(d)
    ensures Reversible(d) && CodeFree(CodeMap(d), text) ==> Expand(CodeMap(d), r) == text
  {
    SortByLength(d);
    var r := ApplyEntries(cc, wholeOnly, text, SortDesc(d, WordLength));
    if Reversible(d) && CodeFree(CodeMap(d), text) then
      SortedExpands(cc, wholeOnly, text, d, r);
      r
    else r
  }

  /** A character not in the text and in no code is not in the encoded
      text. */
  lemma EncodeAvoids(cc: CharClasses, wholeOnly: bool, text: string, d: seq<DictEntry>, x: char)
    requires NonEmptyWords(d)
    requires x !in text && forall i :: 0 <= i < |d| ==> x !in d[i].code
    ensures x !in Encode(cc, wholeOnly, text, d)
  {
    var sorted := SortDesc(d, WordLength);
    SortByLength(d);
    forall i | 0 <= i < |sorted| ensures x !in sorted[i].code {
      assert sorted[i] in d;
    }
    ApplyEntriesAvoids(cc, wholeOnly, text, sorted, x);
  }

  /** Facts about a dictionary that make its substitutions reversible: one
      symbol per code, distinct codes, non-empty words that contain no
      code symbol. */
  predicate Reversible(d: seq<DictEntry>) {
    && AllSingle(d)
    && Distinct(Codes(d))
    && NonEmptyWords(d)
    && forall i :: 0 <= i < |d| ==> CodeFree(CodeMap(d), d[i].word)
  }

  /** The lookup `m` maps the entry's one-symbol code back to its word,
      which holds no code symbol. */
  predicate Undoable(m: map<string, string>, e: DictEntry) {
    |e.code| == 1 && e.code in m && m[e.code] == e.word && CodeFree(m, e.word)
  }

  lemma {:induction false} ApplyEntriesExpands(cc: CharClasses, wholeOnly: bool, text: string,
                                               es: seq<DictEntry>, m: map<string, string>)
    requires NonEmptyWords(es)
    requires forall i :: 0 <= i < |es| ==> Undoable(m, es[i])
    ensures Expand(m, ApplyEntries(cc, wholeOnly, text, es)) == Expand(m, text)
    decreases |es|
  {
    if |es| > 0 {
      var e := es[0];
      assert Undoable(m, e);
      var t := Replace(cc, wholeOnly, text, e.word, e.code);
      ReplaceFromExpands(cc, wholeOnly, "", text, e.word, e.code, m);
      assert "" + text == text;
      var tail := es[1..];
      assert forall i :: 0 <= i < |tail| ==> tail[i] == es[i + 1];
      ApplyEntriesExpands(cc, wholeOnly, t, tail, m);
      assert ApplyEntries(cc, wholeOnly, text, es) == ApplyEntries(cc, wholeOnly, t, tail);
    }
  }

  /** Decoding the encoded text character by character gives back the
      input, which holds no code symbol. */
  lemma EncodeExpands(cc: CharClasses, wholeOnly: bool, text: string, d: seq<DictEntry>)
    requires Reversible(d) && CodeFree(CodeMap(d), text)
    ensures Expand(CodeMap(d), Encode(cc, wholeOnly, text, d)) == text
  {
  }

  /** The step of `Encode` that undoes: the longest-first substitutions of
      a reversible dictionary expand back to the code-free text. */
  lemma SortedExpands(cc: CharClasses, wholeOnly: bool, text: string, d: seq<DictEntry>, r: string)
    requires NonEmptyWords(d) && NonEmptyWords(SortDesc(d, WordLength))
    requires r == ApplyEntries(cc, wholeOnly, text, SortDesc(d, WordLength))
    requires Reversible(d) && CodeFree(CodeMap(d), text)
    ensures Expand(CodeMap(d), r) == text
  {
    var m := CodeMap(d);
    var sorted := SortDesc(d, WordLength);
    SortByLength(d);
    forall i | 0 <= i < |sorted| ensures Undoable(m, sorted[i]) {
      assert sorted[i] in d;
      var j :| 0 <= j < |d| && d[j] == sorted[i];
      CodeMapDistinct(d, j);
    }
    ApplyEntriesExpands(cc, wholeOnly, text, sorted, m);
  }

  /** When neither the text nor any code starts with `x`, the encoded text
      does not start with `x`. */
  lemma {:induction false} ApplyEntriesFirst(cc: CharClasses, wholeOnly: bool, text: string,
                                             es: seq<DictEntry>, x: char)
    requires NonEmptyWords(es)
    requires forall i :: 0 <= i < |es| ==> |es[i].code| > 0 && es[i].code[0] != x
    requires |text| > 0 ==> text[0] != x
    ensures var r := ApplyEntries(cc, wholeOnly, text, es); |r| > 0 ==> r[0] != x
    decreases |es|
  {
    if |es| > 0 {
      ReplaceFirst(cc, wholeOnly, text, es[0].word, es[0].code);
      forall i | 0 <= i < |es| - 1 ensures es[1..][i] == es[i + 1] { }
      ApplyEntriesFirst(cc, wholeOnly, Replace(cc, wholeOnly, text, es[0].word, es[0].code), es[1..], x);
    }
  }

  lemma EncodeFirst(cc: CharClasses, wholeOnly: bool, text: string, d: seq<DictEntry>, x: char)
    requires NonEmptyWords(d)
    requires forall i :: 0 <= i < |d| ==> |d[i].code| > 0 && d[i].code[0] != x
    requires |text| > 0 ==> text[0] != x
    ensures var r := Encode(cc, wholeOnly, text, d); |r| > 0 ==> r[0] != x
  {
    var sorted := SortDesc(d, WordLength);
    SortByLength(d);
    forall i | 0 <= i < |sorted| ensures |sorted[i].code| > 0 && sorted[i].code[0] != x {
      assert sorted[i] in d;
    }
    ApplyEntriesFirst(cc, wholeOnly, text, sorted, x);
  }

  /** Length of the run of code symbols at the start of `s`. */
  function CodeRun(singles: set<char>, s: string): (k: nat)
    ensures k <= |s|
    ensures forall i :: 0 <= i < k ==> s[i] in singles
    ensures k < |s| ==> s[k] !in singles
    decreases |s|
  {
    if |s| == 0 || s[0] !in singles then 0 else 1 + CodeRun(singles, s[1..])
  }

  /** A run of code symbols followed by a non-code is a maximal run. */
  lemma {:induction false} CodeRunOfRun(singles: set<char>, run: string, rest: string)
    requires forall i :: 0 <= i < |run| ==> run[i] in singles
    requires |rest| == 0 || rest[0] !in singles
    ensures CodeRun(singles, run + rest) == |run|
    decreases |run|
  {
    if |run| > 0 {
      assert (run + rest)[1..] == run[1..] + rest;
      CodeRunOfRun(singles, run[1..], rest);
    } else {
      assert run + rest == rest;
    }
  }

  /** The digit character for a count 0..9 (Java's `(char)('0' + n)`). */
  function DigitChar(n: nat): (c: char)
    requires n <= 9
    ensures IsAsciiDigit(c) && c as int - '0' as int == n
  {
    ('0' as int + n) as char
  }
}
