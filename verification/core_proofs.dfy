/** Properties of the boundary-checked codec: the decoder undoes group
    coding and substitution, the dictionary a compression builds is
    reversible, and so a compression followed by a decompression gives
    back the processed text. */
module SaberWCoreProofs {
  import opened Wrappers
  import opened Seqs
  import opened Unicode
  import opened Model
  import opened Codec
  import opened SaberWCore
  import Validation
  import Tokenizer
  import PhraseFinder
  import IG = ImprovedCodeGenerator

  // ---------------------------------------------------------------------
  // Decoding undoes group coding

  /** A run of code symbols with no header decodes symbol by symbol. */
  lemma {:induction false} DecodeRun(cc: CharClasses, m: map<string, string>, singles: set<char>,
                                     run: string, t: string)
    requires forall i :: 0 <= i < |run| ==> run[i] in singles && run[i] != GroupMarker
    ensures DecodeFrom(cc, m, singles, run + t) == Expand(m, run) + DecodeFrom(cc, m, singles, t)
    decreases |run|
  {
    if |run| == 0 {
      assert run + t == t;
    } else {
      var s := run + t;
      assert s[0] == run[0] && s[1..] == run[1..] + t;
      DecodeRun(cc, m, singles, run[1..], t);
    }
  }

  /** A header followed by its run decodes to the expanded run. */
  lemma DecodeHeader(cc: CharClasses, m: map<string, string>, singles: set<char>, run: string, t: string)
    requires WellFormed(cc)
    requires 2 <= |run| <= 9
    ensures DecodeFrom(cc, m, singles, Header(|run|) + run + t) == Expand(m, run) + DecodeFrom(cc, m, singles, t)
  {
    var k := |run|;
    var s := Header(k) + run + t;
    assert s[0] == GroupMarker && s[1] == DigitChar(k);
    assert cc.isDigit(s[1]);
    assert s[2..2 + k] == run && s[2 + k..] == t;
  }

  /** A character that is neither a code nor the group marker decodes to
      itself. */
  lemma DecodePlain(cc: CharClasses, m: map<string, string>, singles: set<char>, c: char, t: string)
    requires SingleLookup(m, singles)
    requires c !in singles && c != GroupMarker
    ensures DecodeFrom(cc, m, singles, [c] + t) == [c] + DecodeFrom(cc, m, singles, t)
  {
    var s := [c] + t;
    assert s[0] == c && s[1..] == t;
    assert |s| >= 2 ==> |s[..2]| == 2;
  }

  /** The decoder reads group-coded text back as the character-wise
      expansion of the text before group coding. */
  lemma {:induction false} DecodeGroup(cc: CharClasses, m: map<string, string>, singles: set<char>, s: string)
    requires WellFormed(cc) && SingleLookup(m, singles)
    requires GroupMarker !in s && GroupMarker !in singles
    ensures DecodeFrom(cc, m, singles, GroupFrom(singles, s)) == Expand(m, s)
    decreases |s|
  {
    if |s| > 0 {
      if s[0] in singles {
        var k := CodeRun(singles, s);
        var run, rest := s[..k], s[k..];
        SliceSplit(s, k);
        var g := GroupFrom(singles, rest);
        assert GroupFrom(singles, s) == Header(k) + run + g;
        if 2 <= k <= 9 {
          DecodeHeader(cc, m, singles, run, g);
        } else {
          assert Header(k) + run + g == run + g;
          DecodeRun(cc, m, singles, run, g);
        }
        DecodeGroup(cc, m, singles, rest);
        ExpandAppend(m, run, rest);
      } else {
        DecodePlain(cc, m, singles, s[0], GroupFrom(singles, s[1..]));
        DecodeGroup(cc, m, singles, s[1..]);
        assert [s[0]] !in m;
      }
    }
  }

  /** The first character of group-coded text is a group marker or the
      first character of the input. */
  lemma GroupFirst(singles: set<char>, s: string)
    requires |s| > 0
    ensures |GroupFrom(singles, s)| > 0
    ensures GroupFrom(singles, s)[0] == GroupMarker || GroupFrom(singles, s)[0] == s[0]
  {
    if s[0] in singles {
      var k := CodeRun(singles, s);
      assert (Header(k) + s[..k] + GroupFrom(singles, s[k..]))[0] in {GroupMarker, s[0]};
    }
  }

  // ---------------------------------------------------------------------
  // Candidates come from the text

  /** Every character of `s` occurs in `t`. */
  predicate Within(s: string, t: string) {
    forall i :: 0 <= i < |s| ==> s[i] in t
  }

  /** A word counted at least once is the value of some WORD token. */
  lemma {:induction false} WordWitness(ts: seq<Token>, w: string)
    requires Tokenizer.WordCount(ts, w) > 0
    ensures exists i :: 0 <= i < |ts| && ts[i].kind == Word && ts[i].value == w
    decreases |ts|
  {
    var last := ts[|ts| - 1];
    if !(last.kind == Word && last.value == w) {
      WordWitness(ts[..|ts| - 1], w);
      var i :| 0 <= i < |ts| - 1 && ts[..|ts| - 1][i].kind == Word && ts[..|ts| - 1][i].value == w;
      assert ts[i] == ts[..|ts| - 1][i];
    }
  }

  /** A token's characters occur in the text the tokens split. */
  lemma TokenWithin(ts: seq<Token>, i: nat)
    requires i < |ts|
    ensures Within(ts[i].value, Concat(Values(ts)))
  {
    var vs := Values(ts);
    ConcatPartChars(vs, i, i + 1);
    assert vs[i..i + 1] == [vs[i]] && [vs[i]][1..] == [];
    assert Concat([vs[i]]) == vs[i] + "";
  }

  /** Every word candidate is a non-empty, uncoded word of the text. */
  lemma WordCandidateWithin(cc: CharClasses, t: string, c: Candidate, minWordLength: int,
                            minFrequency: int, minFrequencyFor2Chars: int)
    requires c in SelectCandidates(AnalyzeWordFrequency(cc, Tokenizer.Tokenize(cc, Some(t))),
                                   minWordLength, minFrequency, minFrequencyFor2Chars)
    ensures c.code == None && |c.text| > 0 && Within(c.text, t)
  {
    var ts := Tokenizer.Tokenize(cc, Some(t));
    var fs := AnalyzeWordFrequency(cc, ts);
    var k :| 0 <= k < |fs| && fs[k] == Freq(c.text, c.frequency);
    assert FreqWords(fs)[k] == c.text;
    WordWitness(ts, c.text);
    var i :| 0 <= i < |ts| && ts[i].kind == Word && ts[i].value == c.text;
    Tokenizer.TokenizePartition(cc, t);
    TokenWithin(ts, i);
  }

  /** A window of at least one non-empty part is non-empty, and its
      characters occur in the concatenation of all parts. */
  lemma WindowWithin(vs: seq<string>, l: nat, w: string)
    requires 0 < l <= |vs| && w in PhraseFinder.Windows(vs, l)
    requires forall i :: 0 <= i < |vs| ==> |vs[i]| > 0
    ensures |w| > 0 && Within(w, Concat(vs))
  {
    var ws := PhraseFinder.Windows(vs, l);
    var i :| 0 <= i < |ws| && ws[i] == w;
    var part := vs[i..i + l];
    assert w == Concat(part);
    assert part[0] == vs[i];
    Tokenizer.ConcatHead(part);
    ConcatPartChars(vs, i, i + l);
  }

  /** A phrase candidate is an admitted window of some length from two
      up to `maxPhraseTokens`. */
  lemma PhraseAdmitted(ts: seq<Token>, c: Candidate, maxPhraseTokens: int, minFrequency: int,
                       minPhraseLength: int) returns (l: int)
    requires c in Tokenizer.FindPhraseCandidates(Some(ts), maxPhraseTokens, minFrequency, minPhraseLength)
    ensures 2 <= l <= maxPhraseTokens && PhraseFinder.Admitted(Values(ts), l, minFrequency, minPhraseLength, c)
  {
    assert c in PhraseFinder.FindPhrasesOptimized(Some(ts), maxPhraseTokens, minFrequency, minPhraseLength);
    assert c in PhraseFinder.PhrasesBeforeDedup(Some(ts), maxPhraseTokens, minFrequency, minPhraseLength);
    l :| 2 <= l <= maxPhraseTokens && PhraseFinder.Admitted(Values(ts), l, minFrequency, minPhraseLength, c);
  }

  /** Every phrase candidate is a non-empty, uncoded run of consecutive
      tokens of the text. */
  lemma PhraseCandidateWithin(cc: CharClasses, t: string, c: Candidate, maxPhraseTokens: int,
                              minFrequency: int, minPhraseLength: int)
    requires c in Tokenizer.FindPhraseCandidates(Some(Tokenizer.Tokenize(cc, Some(t))), maxPhraseTokens,
                                                 minFrequency, minPhraseLength)
    ensures c.code == None && |c.text| > 0 && Within(c.text, t)
  {
    var ts := Tokenizer.Tokenize(cc, Some(t));
    var vs := Values(ts);
    var l := PhraseAdmitted(ts, c, maxPhraseTokens, minFrequency, minPhraseLength);
    assert 0 < l <= |vs| && c.text in PhraseFinder.Windows(vs, l);
    Tokenizer.TokenizePartition(cc, t);
    forall i | 0 <= i < |vs| ensures |vs[i]| > 0 {
      assert vs[i] == ts[i].value;
    }
    WindowWithin(vs, l, c.text);
  }

  /** Every candidate of a compression is a non-empty, uncoded piece of
      the text. */
  lemma CandidateWithin(cc: CharClasses, t: string, withPhrases: bool, minWordLength: int,
                        minFrequency: int, minFrequencyFor2Chars: int, maxPhraseTokens: int,
                        minPhraseLength: int, c: Candidate)
    requires c in Candidates(cc, Tokenizer.Tokenize(cc, Some(t)), withPhrases, minWordLength, minFrequency,
                             minFrequencyFor2Chars, maxPhraseTokens, minPhraseLength)
    ensures c.code == None && |c.text| > 0 && Within(c.text, t)
  {
    var ts := Tokenizer.Tokenize(cc, Some(t));
    var words := SelectCandidates(AnalyzeWordFrequency(cc, ts), minWordLength, minFrequency, minFrequencyFor2Chars);
    if c in words {
      WordCandidateWithin(cc, t, c, minWordLength, minFrequency, minFrequencyFor2Chars);
    } else {
      PhraseCandidateWithin(cc, t, c, maxPhraseTokens, minFrequency, minPhraseLength);
    }
  }

  // ---------------------------------------------------------------------
  // The dictionary of a compression

  /** The symbols every allocator draws codes from, U+3400..U+348B. */
  predicate InCodeBlock(c: char) {
    '\U{3400}' <= c <= '\U{348B}'
  }

  /** Every word is a non-empty piece of `t`. */
  predicate WordsWithin(d: seq<DictEntry>, t: string) {
    forall i :: 0 <= i < |d| ==> |d[i].word| > 0 && Within(d[i].word, t)
  }

  /** Every code is non-empty and made of code-block symbols absent from
      `t`. */
  predicate CodesOutside(d: seq<DictEntry>, t: string) {
    forall i :: 0 <= i < |d| ==>
      |d[i].code| > 0 && forall j :: 0 <= j < |d[i].code| ==> d[i].code[j] !in t && InCodeBlock(d[i].code[j])
  }

  /** A code the allocator issued for `t` is made of code-block symbols
      absent from `t`, and has one symbol when pairs are switched off. */
  lemma IssuedCodeOutside(g: IG.Gen, gEnd: IG.Gen, code: Option<string>, singlesOnly: bool, t: string)
    requires g.textChars == CharSet(t) && IssuedBetween(g, gEnd, code, singlesOnly)
    ensures var s := code.GetOr("");
            && |s| > 0 && (forall j :: 0 <= j < |s| ==> s[j] !in t && InCodeBlock(s[j]))
            && (singlesOnly ==> |s| == 1)
  {
  }

  /** The entry built from the `i`-th kept candidate: its word is a
      candidate's text and its code passed `isCodeSafe` against `t`. */
  lemma DictEntryFacts(g: IG.Gen, cs: seq<Candidate>, singlesOnly: bool, t: string, i: nat)
    requires g.textChars == CharSet(t)
    requires forall c :: c in cs ==> c.code == None && |c.text| > 0 && Within(c.text, t)
    requires i < |AssignCodes(g, cs, singlesOnly).kept|
    ensures var e := CreateDictionary(AssignCodes(g, cs, singlesOnly).kept)[i];
            && |e.word| > 0 && Within(e.word, t)
            && |e.code| > 0 && (forall j :: 0 <= j < |e.code| ==> e.code[j] !in t && InCodeBlock(e.code[j]))
            && (singlesOnly ==> |e.code| == 1)
  {
    var kept := AssignCodes(g, cs, singlesOnly).kept;
    AssignedCodes(g, cs, singlesOnly);
    IssuedCodeOutside(g, AssignCodes(g, cs, singlesOnly).gen, kept[i].code, singlesOnly, t);
    AssignedFrom(g, cs, singlesOnly);
    assert RecodedIn(cs, kept[i]);
    var k :| 0 <= k < |cs| && Recoded(cs[k], kept[i]);
    assert kept[i].text == cs[k].text;
  }

  /** No two entries of the dictionary share a code. */
  lemma DictDistinct(g: IG.Gen, cs: seq<Candidate>, singlesOnly: bool)
    ensures Distinct(Codes(CreateDictionary(AssignCodes(g, cs, singlesOnly).kept)))
  {
    var kept := AssignCodes(g, cs, singlesOnly).kept;
    var d := CreateDictionary(kept);
    AssignedAscending(g, cs, singlesOnly);
    forall i, j | 0 <= i < j < |d| ensures Codes(d)[i] != Codes(d)[j] {
      assert Codes(d)[i] == CodeOf(kept[i]) && Codes(d)[j] == CodeOf(kept[j]);
    }
  }

  /** The dictionary of a compression: distinct codes, words that are
      non-empty pieces of the processed text, codes made of code-block
      symbols the processed text does not hold, and one-symbol codes only
      when pairs are switched off. */
  lemma PipelineDictionary(cc: CharClasses, core: Core, withPhrases: bool, singlesOnly: bool,
                           minWordLength: int, minFrequency: int, minFrequencyFor2Chars: int,
                           maxPhraseTokens: int, minPhraseLength: int)
    requires ValidCore(cc, core)
    ensures var d := Pipeline(cc, core, withPhrases, singlesOnly, minWordLength, minFrequency, minFrequencyFor2Chars,
                              maxPhraseTokens, minPhraseLength).result.dictionary;
            var t := TextToProcess(cc, core);
            && Distinct(Codes(d)) && WordsWithin(d, t) && CodesOutside(d, t)
            && (singlesOnly ==> AllSingle(d))
  {
    var t := TextToProcess(cc, core);
    if |t| > 0 {
      var tokens := Tokenizer.Tokenize(cc, Some(t));
      var cs := Candidates(cc, tokens, withPhrases, minWordLength, minFrequency, minFrequencyFor2Chars,
                           maxPhraseTokens, minPhraseLength);
      var kept := AssignCodes(core.gen, cs, singlesOnly).kept;
      var d := CreateDictionary(kept);
      assert Pipeline(cc, core, withPhrases, singlesOnly, minWordLength, minFrequency, minFrequencyFor2Chars,
                      maxPhraseTokens, minPhraseLength).result.dictionary == d;
      forall c | c in cs ensures c.code == None && |c.text| > 0 && Within(c.text, t) {
        CandidateWithin(cc, t, withPhrases, minWordLength, minFrequency, minFrequencyFor2Chars,
                        maxPhraseTokens, minPhraseLength, c);
      }
      forall i | 0 <= i < |d|
        ensures |d[i].word| > 0 && Within(d[i].word, t)
        ensures |d[i].code| > 0 && forall j :: 0 <= j < |d[i].code| ==> d[i].code[j] !in t && InCodeBlock(d[i].code[j])
        ensures singlesOnly ==> |d[i].code| == 1
      {
        DictEntryFacts(core.gen, cs, singlesOnly, t, i);
      }
      DictDistinct(core.gen, cs, singlesOnly);
    }
  }

  /** A piece of `t` holds no code symbol of a dictionary whose codes
      avoid `t`. */
  lemma CodeFreeWithin(d: seq<DictEntry>, s: string, t: string)
    requires Within(s, t) && CodesOutside(d, t)
    ensures CodeFree(CodeMap(d), s)
  {
    forall k | 0 <= k < |s| ensures [s[k]] !in CodeMap(d) {
      forall j | 0 <= j < |d| ensures Codes(d)[j] != [s[k]] {
        assert d[j].code[0] != s[k];
      }
    }
  }

  /** Such a dictionary with one-symbol codes is reversible, and the text
      holds none of its codes. */
  lemma DictReversible(d: seq<DictEntry>, t: string)
    requires AllSingle(d) && Distinct(Codes(d)) && WordsWithin(d, t) && CodesOutside(d, t)
    ensures Reversible(d) && CodeFree(CodeMap(d), t)
  {
    forall i | 0 <= i < |d| ensures CodeFree(CodeMap(d), d[i].word) {
      CodeFreeWithin(d, d[i].word, t);
    }
    assert Within(t, t);
    CodeFreeWithin(d, t, t);
  }

  // ---------------------------------------------------------------------
  // Round trip

  /** Decoding the group-coded, substituted text gives the text back, and
      the coded text does not start with the lower-case marker unless the
      text does. */
  lemma DecodeEncoded(cc: CharClasses, t: string, d: seq<DictEntry>)
    requires WellFormed(cc) && GroupMarker !in t
    requires Reversible(d) && CodeFree(CodeMap(d), t) && CodesOutside(d, t)
    ensures var g := ApplyGroupCoding(EncodeText(cc, t, d), d);
            && DecodeFrom(cc, CodeMap(d), SingleCodes(d), g) == t
            && (|g| > 0 && g[0] == LowerCaseMarker ==> |t| > 0 && t[0] == LowerCaseMarker)
  {
    DecodeEncodedText(cc, t, d);
    CodedFirst(cc, t, d);
  }

  lemma DecodeEncodedText(cc: CharClasses, t: string, d: seq<DictEntry>)
    requires WellFormed(cc) && GroupMarker !in t
    requires Reversible(d) && CodeFree(CodeMap(d), t) && CodesOutside(d, t)
    ensures DecodeFrom(cc, CodeMap(d), SingleCodes(d), ApplyGroupCoding(EncodeText(cc, t, d), d)) == t
  {
    var m, singles := CodeMap(d), SingleCodes(d);
    var encoded := EncodeText(cc, t, d);
    assert Expand(m, encoded) == t;
    EncodeAvoids(cc, true, t, d, GroupMarker);
    SingleKeys(d);
    MarkerNotSingle(d, t);
    DecodeGroup(cc, m, singles, encoded);
  }

  /** No code of the dictionary is the group marker. */
  lemma MarkerNotSingle(d: seq<DictEntry>, t: string)
    requires CodesOutside(d, t)
    ensures GroupMarker !in SingleCodes(d)
  {
    forall j | 0 <= j < |d| ensures Codes(d)[j] != [GroupMarker] {
      assert InCodeBlock(d[j].code[0]);
    }
  }

  /** The coded text does not start with the lower-case marker unless the
      text does. */
  lemma CodedFirst(cc: CharClasses, t: string, d: seq<DictEntry>)
    requires CodesOutside(d, t)
    ensures var g := ApplyGroupCoding(EncodeText(cc, t, d), d);
            |g| > 0 && g[0] == LowerCaseMarker ==> |t| > 0 && t[0] == LowerCaseMarker
  {
    var encoded := EncodeText(cc, t, d);
    if |encoded| > 0 {
      GroupFirst(SingleCodes(d), encoded);
      if (|t| == 0 || t[0] != LowerCaseMarker) && NonEmptyWords(d) {
        EncodeFirst(cc, true, t, d, LowerCaseMarker);
      }
    }
  }

  /** Decompressing the coded text, with or without the marker in front,
      gives the text back. */
  lemma DecompressCoded(cc: CharClasses, t: string, d: seq<DictEntry>, marked: bool, compressed: string)
    requires WellFormed(cc) && GroupMarker !in t && (|t| == 0 || t[0] != LowerCaseMarker)
    requires AllSingle(d) && Distinct(Codes(d)) && WordsWithin(d, t) && CodesOutside(d, t)
    requires var g := ApplyGroupCoding(EncodeText(cc, t, d), d);
             compressed == if marked then [LowerCaseMarker] + g else g
    ensures Decompress(cc, Some(compressed), Some(d)) == Some(t)
  {
    DictReversible(d, t);
    DecodeEncoded(cc, t, d);
    StripMarker(cc, d, ApplyGroupCoding(EncodeText(cc, t, d), d), t, marked, compressed);
  }

  /** The marker in front of a coded text is dropped before decoding, and
      a coded text only starts with one when its original did. */
  lemma StripMarker(cc: CharClasses, d: seq<DictEntry>, g: string, t: string, marked: bool, compressed: string)
    requires DecodeFrom(cc, CodeMap(d), SingleCodes(d), g) == t
    requires |g| > 0 && g[0] == LowerCaseMarker ==> |t| > 0 && t[0] == LowerCaseMarker
    requires |t| == 0 || t[0] != LowerCaseMarker
    requires compressed == if marked then [LowerCaseMarker] + g else g
    ensures Decompress(cc, Some(compressed), Some(d)) == Some(t)
  {
    assert marked ==> compressed[1..] == g;
  }

  /** A compression followed by a decompression gives back the processed
      text (the original, or its lower-cased form), provided the text
      holds no group marker, does not start with the lower-case marker,
      and the dictionary has one-symbol codes only (which holds whenever
      pairs are switched off). */
  lemma PipelineRoundTrip(cc: CharClasses, core: Core, withPhrases: bool, singlesOnly: bool,
                          minWordLength: int, minFrequency: int, minFrequencyFor2Chars: int,
                          maxPhraseTokens: int, minPhraseLength: int)
    requires WellFormed(cc) && ValidCore(cc, core)
    requires GroupMarker !in TextToProcess(cc, core)
    requires |TextToProcess(cc, core)| == 0 || TextToProcess(cc, core)[0] != LowerCaseMarker
    requires singlesOnly || AllSingle(Pipeline(cc, core, withPhrases, singlesOnly, minWordLength, minFrequency,
                                               minFrequencyFor2Chars, maxPhraseTokens, minPhraseLength).result.dictionary)
    ensures var r := Pipeline(cc, core, withPhrases, singlesOnly, minWordLength, minFrequency, minFrequencyFor2Chars,
                              maxPhraseTokens, minPhraseLength).result;
            Decompress(cc, Some(r.compressedText), Some(r.dictionary)) == Some(TextToProcess(cc, core))
  {
    var t := TextToProcess(cc, core);
    var r := Pipeline(cc, core, withPhrases, singlesOnly, minWordLength, minFrequency, minFrequencyFor2Chars,
                      maxPhraseTokens, minPhraseLength).result;
    if |t| > 0 {
      PipelineDictionary(cc, core, withPhrases, singlesOnly, minWordLength, minFrequency, minFrequencyFor2Chars,
                         maxPhraseTokens, minPhraseLength);
      PipelineText(cc, core, withPhrases, singlesOnly, minWordLength, minFrequency, minFrequencyFor2Chars,
                   maxPhraseTokens, minPhraseLength);
      DecompressCoded(cc, t, r.dictionary, core.normalizeToLowercase && !Validation.IsLikelySourceCode(Some(t)),
                      r.compressedText);
    }
  }

  /** The compressed text is the group-coded, substituted text, with the
      lower-case marker in front exactly when lower-casing applies to the
      processed text. */
  lemma PipelineText(cc: CharClasses, core: Core, withPhrases: bool, singlesOnly: bool,
                     minWordLength: int, minFrequency: int, minFrequencyFor2Chars: int,
                     maxPhraseTokens: int, minPhraseLength: int)
    requires |TextToProcess(cc, core)| > 0
    ensures var t := TextToProcess(cc, core);
            var r := Pipeline(cc, core, withPhrases, singlesOnly, minWordLength, minFrequency, minFrequencyFor2Chars,
                              maxPhraseTokens, minPhraseLength).result;
            var g := ApplyGroupCoding(EncodeText(cc, t, r.dictionary), r.dictionary);
            r.compressedText == if core.normalizeToLowercase && !Validation.IsLikelySourceCode(Some(t))
                                then [LowerCaseMarker] + g else g
  {
  }

  /** The compressed text starts with the lower-case marker exactly when
      lower-casing is switched on and the processed text does not look
      like program source (for a text that does not itself start with the
      marker). */
  lemma CompressMarker(cc: CharClasses, core: Core, minWordLength: int, minFrequency: int,
                       minFrequencyFor2Chars: int, maxPhraseTokens: int, minPhraseLength: int)
    requires ValidCore(cc, core)
    requires |TextToProcess(cc, core)| > 0 && TextToProcess(cc, core)[0] != LowerCaseMarker
    ensures var c := Compress(cc, core, minWordLength, minFrequency, minFrequencyFor2Chars, maxPhraseTokens,
                              minPhraseLength).result.compressedText;
            |c| > 0 && c[0] == LowerCaseMarker
            <==> core.normalizeToLowercase && !Validation.IsLikelySourceCode(Some(TextToProcess(cc, core)))
  {
    var t := TextToProcess(cc, core);
    PipelineDictionary(cc, core, false, false, minWordLength, minFrequency, minFrequencyFor2Chars,
                       maxPhraseTokens, minPhraseLength);
    PipelineText(cc, core, false, false, minWordLength, minFrequency, minFrequencyFor2Chars,
                 maxPhraseTokens, minPhraseLength);
    var d := Compress(cc, core, minWordLength, minFrequency, minFrequencyFor2Chars, maxPhraseTokens,
                      minPhraseLength).result.dictionary;
    CodedFirst(cc, t, d);
  }

  /** As written, `compress` round-trips whenever its dictionary has
      one-symbol codes only. */
  lemma CompressRoundTrip(cc: CharClasses, core: Core, minWordLength: int, minFrequency: int,
                          minFrequencyFor2Chars: int, maxPhraseTokens: int, minPhraseLength: int)
    requires WellFormed(cc) && ValidCore(cc, core)
    requires GroupMarker !in TextToProcess(cc, core)
    requires |TextToProcess(cc, core)| == 0 || TextToProcess(cc, core)[0] != LowerCaseMarker
    requires AllSingle(Compress(cc, core, minWordLength, minFrequency, minFrequencyFor2Chars, maxPhraseTokens,
                                minPhraseLength).result.dictionary)
    ensures var r := Compress(cc, core, minWordLength, minFrequency, minFrequencyFor2Chars, maxPhraseTokens,
                              minPhraseLength).result;
            Decompress(cc, Some(r.compressedText), Some(r.dictionary)) == Some(TextToProcess(cc, core))
  {
    PipelineRoundTrip(cc, core, false, false, minWordLength, minFrequency, minFrequencyFor2Chars,
                      maxPhraseTokens, minPhraseLength);
  }

  /** With the pair stage removed the round trip needs no condition on
      the dictionary; for a codec built without lower-casing it gives back
      the original text. */
  lemma SinglesOnlyRoundTrip(cc: CharClasses, text: string, normalizeToLowercase: bool, aggressiveCompression: bool,
                             minWordLength: int, minFrequency: int, minFrequencyFor2Chars: int,
                             maxPhraseTokens: int, minPhraseLength: int)
    requires WellFormed(cc)
    requires GroupMarker !in text && (|text| == 0 || text[0] != LowerCaseMarker)
    ensures var core := NewCore(cc, text, normalizeToLowercase, aggressiveCompression);
            var r := CompressSinglesOnly(cc, core, minWordLength, minFrequency, minFrequencyFor2Chars,
                                         maxPhraseTokens, minPhraseLength).result;
            && Decompress(cc, Some(r.compressedText), Some(r.dictionary)) == Some(TextToProcess(cc, core))
            && (!normalizeToLowercase ==> Decompress(cc, Some(r.compressedText), Some(r.dictionary)) == Some(text))
  {
    var core := NewCore(cc, text, normalizeToLowercase, aggressiveCompression);
    var t := TextToProcess(cc, core);
    LowerCasingKeepsMarkers(cc, core);
    PipelineRoundTrip(cc, core, false, true, minWordLength, minFrequency, minFrequencyFor2Chars,
                      maxPhraseTokens, minPhraseLength);
  }

  /** Lower-casing neither creates nor removes a group or lower-case
      marker. */
  lemma LowerCasingKeepsMarkers(cc: CharClasses, core: Core)
    requires WellFormed(cc)
    ensures GroupMarker in TextToProcess(cc, core) <==> GroupMarker in core.originalText
    ensures |core.originalText| > 0 ==>
              (TextToProcess(cc, core)[0] == LowerCaseMarker <==> core.originalText[0] == LowerCaseMarker)
  {
    var o, t := core.originalText, TextToProcess(cc, core);
    if Lowercases(core) {
      assert forall i :: 0 <= i < |o| ==> t[i] == cc.toLowerCase(o[i]);
      if GroupMarker in t {
        var i :| 0 <= i < |t| && t[i] == GroupMarker;
        assert o[i] == GroupMarker;
      }
      if GroupMarker in o {
        var i :| 0 <= i < |o| && o[i] == GroupMarker;
        assert t[i] == GroupMarker;
      }
    }
  }

  // ---------------------------------------------------------------------
  // What the dictionary holds

  /** As written, the two phrase arguments of `compress` change nothing. */
  lemma CompressIgnoresPhraseArgs(cc: CharClasses, core: Core, minWordLength: int, minFrequency: int,
                                  minFrequencyFor2Chars: int, maxPhraseTokens: int, minPhraseLength: int,
                                  otherMaxPhraseTokens: int, otherMinPhraseLength: int)
    ensures Compress(cc, core, minWordLength, minFrequency, minFrequencyFor2Chars, maxPhraseTokens, minPhraseLength)
            == Compress(cc, core, minWordLength, minFrequency, minFrequencyFor2Chars, otherMaxPhraseTokens,
                        otherMinPhraseLength)
  {
    var ts := Tokenizer.Tokenize(cc, Some(TextToProcess(cc, core)));
    assert Candidates(cc, ts, false, minWordLength, minFrequency, minFrequencyFor2Chars, maxPhraseTokens,
                      minPhraseLength)
        == Candidates(cc, ts, false, minWordLength, minFrequency, minFrequencyFor2Chars, otherMaxPhraseTokens,
                      otherMinPhraseLength);
  }

  /** As written, `compress` builds its dictionary from single words
      only: every entry's word is a letters-and-digits WORD token of the
      processed text. */
  lemma CompressWordsOnly(cc: CharClasses, core: Core, minWordLength: int, minFrequency: int,
                          minFrequencyFor2Chars: int, maxPhraseTokens: int, minPhraseLength: int, i: nat)
    requires i < |Compress(cc, core, minWordLength, minFrequency, minFrequencyFor2Chars, maxPhraseTokens,
                           minPhraseLength).result.dictionary|
    ensures var w := Compress(cc, core, minWordLength, minFrequency, minFrequencyFor2Chars, maxPhraseTokens,
                              minPhraseLength).result.dictionary[i].word;
            var t := TextToProcess(cc, core);
            Validation.IsAlphanumericWord(cc, Some(w)) && Tokenizer.WordCount(Tokenizer.Tokenize(cc, Some(t)), w) > 0
  {
    var ts := Tokenizer.Tokenize(cc, Some(TextToProcess(cc, core)));
    var c := EntryCandidate(cc, core, false, false, minWordLength, minFrequency, minFrequencyFor2Chars,
                            maxPhraseTokens, minPhraseLength, i);
    var fs := AnalyzeWordFrequency(cc, ts);
    var k :| 0 <= k < |fs| && fs[k] == Freq(c.text, c.frequency);
    assert FreqWords(fs)[k] == c.text;
  }

  /** The word of the `i`-th entry of a compression's dictionary is the
      text of one of its candidates. */
  lemma EntryCandidate(cc: CharClasses, core: Core, withPhrases: bool, singlesOnly: bool,
                       minWordLength: int, minFrequency: int, minFrequencyFor2Chars: int,
                       maxPhraseTokens: int, minPhraseLength: int, i: nat) returns (c: Candidate)
    requires i < |Pipeline(cc, core, withPhrases, singlesOnly, minWordLength, minFrequency, minFrequencyFor2Chars,
                           maxPhraseTokens, minPhraseLength).result.dictionary|
    ensures c in Candidates(cc, Tokenizer.Tokenize(cc, Some(TextToProcess(cc, core))), withPhrases, minWordLength,
                            minFrequency, minFrequencyFor2Chars, maxPhraseTokens, minPhraseLength)
    ensures c.text == Pipeline(cc, core, withPhrases, singlesOnly, minWordLength, minFrequency, minFrequencyFor2Chars,
                               maxPhraseTokens, minPhraseLength).result.dictionary[i].word
  {
    var t := TextToProcess(cc, core);
    var cs := Candidates(cc, Tokenizer.Tokenize(cc, Some(t)), withPhrases, minWordLength, minFrequency,
                         minFrequencyFor2Chars, maxPhraseTokens, minPhraseLength);
    var kept := AssignCodes(core.gen, cs, singlesOnly).kept;
    AssignedFrom(core.gen, cs, singlesOnly);
    assert RecodedIn(cs, kept[i]);
    var k :| 0 <= k < |cs| && Recoded(cs[k], kept[i]);
    c := cs[k];
  }

  /** With the phrase arguments put to use, every entry's word is a
      letters-and-digits WORD token or a phrase candidate of the
      processed text. */
  lemma WithPhrasesDictionary(cc: CharClasses, core: Core, minWordLength: int, minFrequency: int,
                              minFrequencyFor2Chars: int, maxPhraseTokens: int, minPhraseLength: int, i: nat)
    requires i < |CompressWithPhrases(cc, core, minWordLength, minFrequency, minFrequencyFor2Chars, maxPhraseTokens,
                                      minPhraseLength).result.dictionary|
    ensures var ts := Tokenizer.Tokenize(cc, Some(TextToProcess(cc, core)));
            var phrases := Tokenizer.FindPhraseCandidates(Some(ts), maxPhraseTokens, minFrequency, minPhraseLength);
            var w := CompressWithPhrases(cc, core, minWordLength, minFrequency, minFrequencyFor2Chars,
                                         maxPhraseTokens, minPhraseLength).result.dictionary[i].word;
            || (Validation.IsAlphanumericWord(cc, Some(w)) && Tokenizer.WordCount(ts, w) > 0)
            || exists p :: p in phrases && p.text == w
  {
    var ts := Tokenizer.Tokenize(cc, Some(TextToProcess(cc, core)));
    var c := EntryCandidate(cc, core, true, false, minWordLength, minFrequency, minFrequencyFor2Chars,
                            maxPhraseTokens, minPhraseLength, i);
    var words := SelectCandidates(AnalyzeWordFrequency(cc, ts), minWordLength, minFrequency, minFrequencyFor2Chars);
    if c in words {
      var fs := AnalyzeWordFrequency(cc, ts);
      var k :| 0 <= k < |fs| && fs[k] == Freq(c.text, c.frequency);
      assert FreqWords(fs)[k] == c.text;
    }
  }

  // ---------------------------------------------------------------------
  // Two-symbol codes

  /** The lookup with one-symbol codes for `alpha` and `beta` and the
      two-symbol code made of the same symbols for `gamma`: the
      dictionary a compression with more candidates than one-symbol codes
      builds. */
  function PairDictionary(): (d: seq<DictEntry>)
    ensures |d| == 3 && d[2].code == d[0].code + d[1].code
  {
    [DictEntry("alpha", "\U{3400}", 2), DictEntry("beta", "\U{3401}", 2),
     DictEntry("gamma", "\U{3400}\U{3401}", 2)]
  }

  /** The group coder wraps the pair code in a header, as it does any run
      of two one-symbol codes. */
  lemma PairGrouped()
    ensures var d := PairDictionary();
            ApplyGroupCoding(d[2].code, d) == [GroupMarker, '2'] + d[2].code
  {
    var d := PairDictionary();
    var x, y := '\U{3400}', '\U{3401}';
    assert SingleCodes(d) == {x, y} by {
      assert Codes(d) == ["\U{3400}", "\U{3401}", "\U{3400}\U{3401}"];
    }
    assert d[2].code == [x, y] + "";
    GroupRun({x, y}, [x, y], "");
    assert Header(2) == [GroupMarker, '2'];
  }

  /** Each symbol of the pair code expands to its own word. */
  lemma PairExpands()
    ensures Expand(CodeMap(PairDictionary()), "\U{3400}\U{3401}") == "alphabeta"
  {
    var d := PairDictionary();
    var x, y := '\U{3400}', '\U{3401}';
    var m := CodeMap(d);
    CodeMapLastWins(d, 0);
    CodeMapLastWins(d, 1);
    assert m[[x]] == "alpha" && m[[y]] == "beta";
    assert "\U{3400}\U{3401}"[1..] == [y] && [y][1..] == "";
  }

  /** The decoder reads the coded form of `gamma` as `alpha` followed by
      `beta`, expanding the two symbols one by one. */
  lemma PairCodeMisdecoded(cc: CharClasses)
    requires WellFormed(cc)
    ensures var d := PairDictionary();
            var coded := ApplyGroupCoding(d[2].code, d);
            && coded == [GroupMarker, '2'] + d[2].code
            && Decompress(cc, Some(coded), Some(d)) == Some("alphabeta")
            && Decompress(cc, Some(coded), Some(d)) != Some(d[2].word)
  {
    var d := PairDictionary();
    PairGrouped();
    PairDecodedAsTwo(cc);
    var coded := [GroupMarker, '2'] + d[2].code;
    StripMarker(cc, d, coded, "alphabeta", false, coded);
    assert "alphabeta" != d[2].word by {
      assert |"alphabeta"| != |d[2].word|;
    }
  }

  /** The group header followed by the pair's two symbols decodes to the
      words of those symbols. */
  lemma PairDecodedAsTwo(cc: CharClasses)
    requires WellFormed(cc)
    ensures var d := PairDictionary();
            DecodeFrom(cc, CodeMap(d), SingleCodes(d), [GroupMarker, '2'] + d[2].code) == "alphabeta"
  {
    var d := PairDictionary();
    var x, y := '\U{3400}', '\U{3401}';
    var m := CodeMap(d);
    PairExpands();
    assert Header(2) + [x, y] + "" == [GroupMarker, '2'] + d[2].code;
    DecodeHeader(cc, m, SingleCodes(d), [x, y], "");
  }
}
