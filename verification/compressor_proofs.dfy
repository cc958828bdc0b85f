/** Properties of the boundary-free codec: its dictionary is reversible,
    decoding undoes the corrected grouping, so a compression followed by
    a decompression gives the text back; the grouping as written agrees
    with the corrected one as long as no run exceeds nine codes, and
    loses the codes after the ninth of a longer run. */
module SaberWCompressorProofs {
  import opened Wrappers
  import opened Seqs
  import opened Unicode
  import opened Model
  import opened Codec
  import opened SaberWCompressor
  import Validation
  import Tokenizer
  import SG = SmartCodeGenerator
  import CP = SaberWCoreProofs

  // ---------------------------------------------------------------------
  // The dictionary

  /** Every dictionary word is a non-empty piece of the text, and every
      code a table symbol the text does not hold. */
  lemma DictionaryWithin(cc: CharClasses, text: string, minFrequency: int)
    ensures var d := Dictionary(cc, text, minFrequency);
            && AllSingle(d) && Distinct(Codes(d))
            && CP.WordsWithin(d, text) && CP.CodesOutside(d, text)
  {
    var d := Dictionary(cc, text, minFrequency);
    DictionaryEntries(cc, text, minFrequency);
    forall i | 0 <= i < |d| ensures |d[i].word| > 0 && CP.Within(d[i].word, text) {
      DictionaryWordWithin(cc, text, minFrequency, i);
    }
    SingleCodesOutside(d, text);
  }

  lemma SingleCodesOutside(d: seq<DictEntry>, text: string)
    requires forall i :: 0 <= i < |d| ==> |d[i].code| == 1 && SG.IsCodeChar(d[i].code[0]) && d[i].code[0] !in text
    ensures CP.CodesOutside(d, text)
  {
  }

  /** Entry `i`'s word is a WORD token of the text. */
  lemma DictionaryWordWithin(cc: CharClasses, text: string, minFrequency: int, i: nat)
    requires i < |Dictionary(cc, text, minFrequency)|
    ensures var w := Dictionary(cc, text, minFrequency)[i].word; |w| > 0 && CP.Within(w, text)
  {
    var ts := Tokenizer.Tokenize(cc, Some(text));
    var w := Dictionary(cc, text, minFrequency)[i].word;
    DictionaryEntries(cc, text, minFrequency);
    assert Tokenizer.WordCount(ts, w) > 0;
    CP.WordWitness(ts, w);
    var k :| 0 <= k < |ts| && ts[k].kind == Word && ts[k].value == w;
    Tokenizer.TokenizePartition(cc, text);
    CP.TokenWithin(ts, k);
  }

  /** The dictionary is reversible, the text holds none of its codes, and
      no code is the group marker. */
  lemma DictionaryReversible(cc: CharClasses, text: string, minFrequency: int)
    ensures var d := Dictionary(cc, text, minFrequency);
            && Reversible(d) && CodeFree(CodeMap(d), text)
            && GroupMarker !in SingleCodes(d)
            && forall i :: 0 <= i < |d| ==> GroupMarker !in d[i].code
  {
    var d := Dictionary(cc, text, minFrequency);
    DictionaryWithin(cc, text, minFrequency);
    CP.DictReversible(d, text);
    MarkerNotCode(d, text);
  }

  /** Code-block codes never hold the group marker. */
  lemma MarkerNotCode(d: seq<DictEntry>, t: string)
    requires CP.CodesOutside(d, t)
    ensures GroupMarker !in SingleCodes(d)
    ensures forall i :: 0 <= i < |d| ==> GroupMarker !in d[i].code
  {
    forall j | 0 <= j < |d| ensures Codes(d)[j] != [GroupMarker] && GroupMarker !in d[j].code {
      assert CP.InCodeBlock(d[j].code[0]);
    }
  }

  // ---------------------------------------------------------------------
  // Decoding undoes the corrected grouping

  /** A header and the symbols it announces decode to the expanded
      symbols. */
  lemma DecodeHeaded(cc: CharClasses, m: map<string, string>, singles: set<char>, run: string, t: string)
    requires WellFormed(cc) && |run| <= 9
    ensures DecodeFrom(cc, m, singles, GroupHeader(|run|) + run + t) == Expand(m, run) + DecodeFrom(cc, m, singles, t)
  {
    var n := |run|;
    var s := GroupHeader(n) + run + t;
    assert s[0] == GroupMarker && cc.isDigit(s[1]);
    assert s[2..2 + n] == run && s[2 + n..] == t;
  }

  /** Decoding the corrected grouping gives the character-wise expansion
      of the text before grouping, when neither the text nor the codes
      hold the group marker. */
  lemma {:induction false} DecodeGroupFixed(cc: CharClasses, d: seq<DictEntry>, s: string)
    requires WellFormed(cc) && GroupMarker !in s && GroupMarker !in SingleCodes(d)
    ensures DecodeFrom(cc, CodeMap(d), SingleCodes(d), GroupFixed(SingleCodes(d), s)) == Expand(CodeMap(d), s)
    decreases |s|
  {
    var m, singles := CodeMap(d), SingleCodes(d);
    if |s| > 0 {
      if s[0] in singles && CodeRun(singles, s) >= 2 {
        var k := CodeRun(singles, s);
        var n := if k < 9 then k else 9;
        DecodeGroupFixed(cc, d, s[n..]);
        DecodeFixedGroup(cc, d, s, n);
      } else {
        DecodeGroupFixed(cc, d, s[1..]);
        DecodeFixedPlain(cc, d, s);
      }
    }
  }

  /** The step of a group: the header and the run decode to the expanded
      run. */
  lemma DecodeFixedGroup(cc: CharClasses, d: seq<DictEntry>, s: string, n: nat)
    requires WellFormed(cc) && |s| > 0 && s[0] in SingleCodes(d) && CodeRun(SingleCodes(d), s) >= 2
    requires n == if CodeRun(SingleCodes(d), s) < 9 then CodeRun(SingleCodes(d), s) else 9
    requires DecodeFrom(cc, CodeMap(d), SingleCodes(d), GroupFixed(SingleCodes(d), s[n..])) == Expand(CodeMap(d), s[n..])
    ensures DecodeFrom(cc, CodeMap(d), SingleCodes(d), GroupFixed(SingleCodes(d), s)) == Expand(CodeMap(d), s)
  {
    var m, singles := CodeMap(d), SingleCodes(d);
    var run, rest := s[..n], s[n..];
    var g := GroupFixed(singles, rest);
    assert GroupFixed(singles, s) == GroupHeader(n) + run + g;
    DecodeHeaded(cc, m, singles, run, g);
    SliceSplit(s, n);
    ExpandAppend(m, run, rest);
  }

  /** The step of a character copied by the grouping. */
  lemma DecodeFixedPlain(cc: CharClasses, d: seq<DictEntry>, s: string)
    requires |s| > 0 && s[0] != GroupMarker
    requires !(s[0] in SingleCodes(d) && CodeRun(SingleCodes(d), s) >= 2)
    requires DecodeFrom(cc, CodeMap(d), SingleCodes(d), GroupFixed(SingleCodes(d), s[1..])) == Expand(CodeMap(d), s[1..])
    ensures DecodeFrom(cc, CodeMap(d), SingleCodes(d), GroupFixed(SingleCodes(d), s)) == Expand(CodeMap(d), s)
  {
    var m, singles := CodeMap(d), SingleCodes(d);
    var g := GroupFixed(singles, s[1..]);
    assert GroupFixed(singles, s) == [s[0]] + g;
    assert ([s[0]] + g)[1..] == g;
    assert s[0] !in singles ==> [s[0]] !in m;
  }

  // ---------------------------------------------------------------------
  // Round trips

  /** With the corrected grouping, compression followed by decompression
      gives back any text that holds no group marker. */
  lemma FixedRoundTrip(cc: CharClasses, text: string, minFrequency: int,
                       maxPhraseTokens: int, minPhraseLength: int)
    requires WellFormed(cc) && GroupMarker !in text
    ensures var r := CompressFixed(cc, Some(text), minFrequency, maxPhraseTokens, minPhraseLength);
            Decompress(cc, Some(r.compressedText), Some(r.dictionary)) == Some(text)
  {
    if |text| > 0 {
      var d := Dictionary(cc, text, minFrequency);
      var encoded := EncodeSimple(cc, text, d);
      DictionaryReversible(cc, text, minFrequency);
      EncodeExpands(cc, false, text, d);
      EncodeAvoids(cc, false, text, d, GroupMarker);
      DecodeGroupFixed(cc, d, encoded);
    }
  }

  /** A suffix of text without long runs has no long runs. */
  lemma ShortRunsSuffix(singles: set<char>, s: string, j: nat)
    requires ShortRuns(singles, s) && j <= |s|
    ensures ShortRuns(singles, s[j..])
  {
    forall i | 0 <= i < |s[j..]| ensures CodeRun(singles, s[j..][i..]) <= 9 {
      assert s[j..][i..] == s[j + i..];
    }
  }

  /** While no run exceeds nine codes, the grouping as written is the
      corrected grouping. */
  lemma {:induction false} AsWrittenOnShortRuns(singles: set<char>, s: string)
    requires ShortRuns(singles, s)
    ensures GroupAsWritten(singles, s) == GroupFixed(singles, s)
    decreases |s|
  {
    if |s| > 0 {
      var k := CodeRun(singles, s);
      assert s[0..] == s;
      if s[0] in singles && k >= 2 {
        ShortRunsSuffix(singles, s, k);
        AsWrittenOnShortRuns(singles, s[k..]);
      } else {
        ShortRunsSuffix(singles, s, 1);
        AsWrittenOnShortRuns(singles, s[1..]);
      }
    }
  }

  /** The source's compression followed by its decompression gives back
      any text that holds no group marker and whose substituted form has
      no run of more than nine adjacent codes. */
  lemma CompressRoundTrip(cc: CharClasses, text: string, minFrequency: int,
                          maxPhraseTokens: int, minPhraseLength: int)
    requires WellFormed(cc) && GroupMarker !in text
    requires var d := Dictionary(cc, text, minFrequency);
             ShortRuns(SingleCodes(d), EncodeSimple(cc, text, d))
    ensures var r := Compress(cc, Some(text), minFrequency, maxPhraseTokens, minPhraseLength);
            Decompress(cc, Some(r.compressedText), Some(r.dictionary)) == Some(text)
  {
    var d := Dictionary(cc, text, minFrequency);
    AsWrittenOnShortRuns(SingleCodes(d), EncodeSimple(cc, text, d));
    FixedRoundTrip(cc, text, minFrequency, maxPhraseTokens, minPhraseLength);
    assert Compress(cc, Some(text), minFrequency, maxPhraseTokens, minPhraseLength)
        == CompressFixed(cc, Some(text), minFrequency, maxPhraseTokens, minPhraseLength);
  }

  // ---------------------------------------------------------------------
  // Long runs lose codes under the grouping as written

  /** A run of more than nine codes is emitted as one group of its first
      nine symbols; the rest of the run is skipped. */
  lemma AsWrittenLongRun(singles: set<char>, run: string, rest: string)
    requires |run| > 9 && forall i :: 0 <= i < |run| ==> run[i] in singles
    requires |rest| == 0 || rest[0] !in singles
    ensures GroupAsWritten(singles, run + rest) == GroupHeader(9) + run[..9] + GroupAsWritten(singles, rest)
  {
    var s := run + rest;
    CodeRunOfRun(singles, run, rest);
    assert s[0] == run[0] && s[..9] == run[..9] && s[|run|..] == rest;
  }

  /** Decoding the grouping as written of a run of more than nine codes
      yields the words of the first nine only. */
  lemma DecodeLongRun(cc: CharClasses, d: seq<DictEntry>, run: string, rest: string)
    requires WellFormed(cc)
    requires |run| > 9 && forall i :: 0 <= i < |run| ==> run[i] in SingleCodes(d)
    requires |rest| == 0 || rest[0] !in SingleCodes(d)
    ensures DecodeFrom(cc, CodeMap(d), SingleCodes(d), GroupAsWritten(SingleCodes(d), run + rest))
         == Expand(CodeMap(d), run[..9]) + DecodeFrom(cc, CodeMap(d), SingleCodes(d), GroupAsWritten(SingleCodes(d), rest))
  {
    AsWrittenLongRun(SingleCodes(d), run, rest);
    DecodeHeaded(cc, CodeMap(d), SingleCodes(d), run[..9], GroupAsWritten(SingleCodes(d), rest));
  }

  /** Each symbol of a string of one code expands to the code's word. */
  lemma {:induction false} ExpandRepeated(m: map<string, string>, c: char, s: string)
    requires [c] in m && forall i :: 0 <= i < |s| ==> s[i] == c
    ensures |Expand(m, s)| == |s| * |m[[c]]|
    decreases |s|
  {
    if |s| > 0 {
      var w := m[[c]];
      ExpandRepeated(m, c, s[1..]);
      assert Expand(m, s) == w + Expand(m, s[1..]);
      assert |s| * |w| == (|s| - 1) * |w| + |w|;
    }
  }

  /** Ten adjacent codes of the word "word": the grouping as written
      decodes to nine copies of the word (36 characters), the corrected
      grouping to all ten (40 characters). */
  lemma TenCodesDecodeToNine(cc: CharClasses)
    requires WellFormed(cc)
    ensures var d := [DictEntry("word", "\U{3400}", 10)];
            var s := seq(10, _ => '\U{3400}');
            var asWritten := Decompress(cc, Some(GroupAsWritten(SingleCodes(d), s)), Some(d));
            var fixed := Decompress(cc, Some(GroupFixed(SingleCodes(d), s)), Some(d));
            && asWritten.Some? && |asWritten.value| == 36
            && fixed == Some(Expand(CodeMap(d), s)) && |fixed.value| == 40
  {
    var d := [DictEntry("word", "\U{3400}", 10)];
    var s := seq(10, _ => '\U{3400}');
    var m := CodeMap(d);
    assert Codes(d) == ["\U{3400}"];
    assert '\U{3400}' in SingleCodes(d) && GroupMarker !in SingleCodes(d);
    CodeMapLastWins(d, 0);
    assert m[['\U{3400}']] == "word";
    DecodeLongRun(cc, d, s, "");
    assert s + "" == s;
    ExpandRepeated(m, '\U{3400}', s[..9]);
    ExpandRepeated(m, '\U{3400}', s);
    DecodeGroupFixed(cc, d, s);
  }
}
