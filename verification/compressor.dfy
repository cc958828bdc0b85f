/** The boundary-free codec (SaberWCompressor): frequent words get
    one-symbol codes from the 100-symbol table, every occurrence of a word
    is replaced wherever it appears, runs of adjacent codes are grouped
    under a group marker and a count, and the decoder undoes both. */
module SaberWCompressor {
  import opened Wrappers
  import opened Seqs
  import opened Unicode
  import opened Model
  import opened Codec
  import Validation
  import Tokenizer
  import PhraseFinder
  import SG = SmartCodeGenerator

  const DefaultMinFrequency: int := 2
  const DefaultMaxPhraseTokens: int := 5
  const DefaultMinPhraseLength: int := 7

  /** The result for a missing or empty text. */
  function EmptyResult(): (r: CompressionResult)
    ensures r.compressedText == "" && r.dictionary == [] && r.stats == Statistics(0, 0, 0)
  {
    CompressionResult("", [], Statistics(0, 0, 0))
  }

  // ---------------------------------------------------------------------
  // Candidates

  /** The texts of a candidate list, in order. */
  function Texts(cs: seq<Candidate>): (ts: seq<string>)
    ensures |ts| == |cs| && forall i :: 0 <= i < |cs| ==> ts[i] == cs[i].text
  {
    seq(|cs|, i requires 0 <= i < |cs| => cs[i].text)
  }

  /** The candidates whose frequency reaches `minFrequency`, in order. */
  function KeepFrequent(cs: seq<Candidate>, minFrequency: int): (r: seq<Candidate>)
    ensures forall c :: c in r <==> c in cs && c.frequency >= minFrequency
    decreases |cs|
  {
    if |cs| == 0 then []
    else
      var rest := KeepFrequent(cs[1..], minFrequency);
      assert forall c :: c in cs <==> c == cs[0] || c in cs[1..];
      if cs[0].frequency >= minFrequency then [cs[0]] + rest else rest
  }

  lemma DistinctTextsTail(cs: seq<Candidate>)
    requires |cs| > 0 && Distinct(Texts(cs))
    ensures Distinct(Texts(cs[1..]))
    ensures forall c :: c in cs[1..] ==> c.text != cs[0].text
  {
    forall c | c in cs[1..] ensures c.text != cs[0].text {
      var k :| 0 <= k < |cs[1..]| && cs[1..][k] == c;
      assert Texts(cs)[k + 1] == c.text;
    }
    forall i, j | 0 <= i < j < |cs| - 1 ensures Texts(cs[1..])[i] != Texts(cs[1..])[j] {
      assert Texts(cs)[i + 1] != Texts(cs)[j + 1];
    }
  }

  lemma DistinctTextsCons(x: Candidate, rest: seq<Candidate>)
    requires Distinct(Texts(rest)) && forall c :: c in rest ==> c.text != x.text
    ensures Distinct(Texts([x] + rest))
  {
    var l := [x] + rest;
    forall i, j | 0 <= i < j < |l| ensures Texts(l)[i] != Texts(l)[j] {
      assert l[j] == rest[j - 1];
      if i > 0 {
        assert l[i] == rest[i - 1];
        assert Texts(rest)[i - 1] != Texts(rest)[j - 1];
      }
    }
  }

  /** Keeping the frequent candidates keeps texts distinct. */
  lemma {:induction false} KeepFrequentDistinct(cs: seq<Candidate>, minFrequency: int)
    requires Distinct(Texts(cs))
    ensures Distinct(Texts(KeepFrequent(cs, minFrequency)))
    decreases |cs|
  {
    if |cs| > 0 {
      var rest := KeepFrequent(cs[1..], minFrequency);
      DistinctTextsTail(cs);
      KeepFrequentDistinct(cs[1..], minFrequency);
      if cs[0].frequency >= minFrequency {
        DistinctTextsCons(cs[0], rest);
      }
    }
  }

  /** Steps 2 and 3 of `compress`: the word-frequency map over the WORD
      tokens admitted by the one-argument `shouldEncodeWord`, and one
      uncoded candidate per entry counted at least `minFrequency` times
      (first-occurrence order stands in for the hash map's order). */
  function WordCandidates(cc: CharClasses, ts: seq<Token>, minFrequency: int): (cs: seq<Candidate>)
    ensures Distinct(Texts(cs))
    ensures forall c :: c in cs <==>
              && c.code == None
              && Validation.ShouldEncodeWord(cc, Some(c.text))
              && c.frequency == Tokenizer.WordCount(ts, c.text) > 0
              && c.frequency >= minFrequency
  {
    var ws := Tokenizer.AdmittedWords(cc, ts);
    var keys := Dedup(ws);
    DedupMembers(ws);
    var all := seq(|keys|, i requires 0 <= i < |keys| => Candidate(keys[i], Count(ws, keys[i]), None));
    assert Texts(all) == keys;
    assert forall c: Candidate :: c in all <==> c.code == None && c.text in ws && c.frequency == Count(ws, c.text) by {
      forall c: Candidate | c.code == None && c.text in ws && c.frequency == Count(ws, c.text) ensures c in all {
        var i :| 0 <= i < |keys| && keys[i] == c.text;
        assert all[i] == c;
      }
    }
    KeepFrequentDistinct(all, minFrequency);
    KeepFrequent(all, minFrequency)
  }

  /** A rearrangement of candidates with distinct texts has distinct
      texts. */
  lemma DistinctTextsPermutation(a: seq<Candidate>, b: seq<Candidate>)
    requires Distinct(Texts(a)) && multiset(a) == multiset(b)
    ensures Distinct(Texts(b))
  {
    assert Distinct(a) by {
      forall i, j | 0 <= i < j < |a| ensures a[i] != a[j] {
        assert Texts(a)[i] != Texts(a)[j];
      }
    }
    DistinctPermutation(a, b);
    forall i, j | 0 <= i < j < |b| ensures b[i].text != b[j].text {
      assert b[i] in multiset(a) && b[j] in multiset(a);
      var p :| 0 <= p < |a| && a[p] == b[i];
      var q :| 0 <= q < |a| && a[q] == b[j];
      assert Texts(a)[p] == b[i].text && Texts(a)[q] == b[j].text;
    }
  }

  /** The ranked candidates of `compress`: the frequent admitted words,
      highest length times frequency first (a stable sort). */
  function SelectWords(cc: CharClasses, ts: seq<Token>, minFrequency: int): (cs: seq<Candidate>)
    ensures SortedDesc(cs, PhraseFinder.Score)
    ensures Distinct(Texts(cs))
    ensures forall c :: c in cs <==>
              && c.code == None
              && Validation.ShouldEncodeWord(cc, Some(c.text))
              && c.frequency == Tokenizer.WordCount(ts, c.text) > 0
              && c.frequency >= minFrequency
  {
    var words := WordCandidates(cc, ts, minFrequency);
    SortDescMembers(words, PhraseFinder.Score);
    DistinctTextsPermutation(words, SortDesc(words, PhraseFinder.Score));
    SortDesc(words, PhraseFinder.Score)
  }

  // ---------------------------------------------------------------------
  // Code assignment

  datatype Coded = Coded(dict: seq<DictEntry>, gen: SG.SGen)

  /** Step 4 of `compress`: each candidate in turn asks the generator for
      a code and gets an entry when the code is not null and passes
      `isSafeToInsert`. */
  function AssignSmart(g: SG.SGen, cs: seq<Candidate>): (r: Coded)
    ensures r.gen.textChars == g.textChars && g.index <= r.gen.index
    ensures |r.dict| <= |cs|
    decreases |cs|
  {
    if |cs| == 0 then Coded([], g)
    else
      var s := SG.NextCode(g);
      SG.NextCodeSafe(g);
      var rest := AssignSmart(s.gen, cs[1..]);
      if s.code.Some? && SG.IsSafeToInsert(s.gen, s.code) then
        Coded([DictEntry(cs[0].text, s.code.value, cs[0].frequency)] + rest.dict, rest.gen)
      else Coded(rest.dict, rest.gen)
  }

  /** A generator that has run dry assigns nothing. */
  lemma {:induction false} AssignFromNull(g: SG.SGen, cs: seq<Candidate>)
    requires SG.NextCode(g).code.None?
    ensures AssignSmart(g, cs).dict == []
    decreases |cs|
  {
    if |cs| > 0 {
      SG.NullStaysNull(g);
      AssignFromNull(SG.NextCode(g).gen, cs[1..]);
    }
  }

  /** The safety check never refuses a code the generator issues, so the
      dictionary is the leading candidates, as many as the generator has
      codes, each paired with the code issued in its turn. */
  lemma {:induction false} AssignSmartIssues(g: SG.SGen, cs: seq<Candidate>)
    ensures var d := AssignSmart(g, cs).dict;
            var codes := SG.IssueAll(g);
            && |d| == (if |cs| < |codes| then |cs| else |codes|)
            && forall i :: 0 <= i < |d| ==> d[i] == DictEntry(cs[i].text, codes[i], cs[i].frequency)
    decreases |cs|
  {
    if |cs| > 0 {
      var s := SG.NextCode(g);
      if s.code.Some? {
        SG.NextCodeSafe(g);
        assert SG.IsSafeToInsert(s.gen, s.code);
        AssignSmartIssues(s.gen, cs[1..]);
        assert SG.IssueAll(g) == [s.code.value] + SG.IssueAll(s.gen);
      } else {
        AssignFromNull(s.gen, cs[1..]) by { SG.NullStaysNull(g); }
      }
    }
  }

  /** The dictionary `compress` builds for `text`. */
  function Dictionary(cc: CharClasses, text: string, minFrequency: int): (d: seq<DictEntry>)
    ensures NonEmptyWords(d)
    ensures forall i :: 0 <= i < |d| ==> |d[i].code| == 1 && SG.IsCodeChar(d[i].code[0]) && d[i].code[0] !in text
  {
    var cs := SelectWords(cc, Tokenizer.Tokenize(cc, Some(text)), minFrequency);
    var d := AssignSmart(SG.New(text), cs).dict;
    AssignSmartIssues(SG.New(text), cs);
    SG.IssueAllIsAbsent(SG.New(text));
    assert forall i :: 0 <= i < |d| ==> cs[i] in cs;
    d
  }

  /** The dictionary pairs the leading ranked candidates with the table
      symbols absent from the text, in table order: as many entries as
      there are candidates or free symbols, whichever is fewer, every code
      a single table symbol that the text does not hold, no code twice,
      no word twice, each word admitted and counted at least
      `minFrequency` times. */
  lemma DictionaryEntries(cc: CharClasses, text: string, minFrequency: int)
    ensures var ts := Tokenizer.Tokenize(cc, Some(text));
            var cs := SelectWords(cc, ts, minFrequency);
            var free := SG.Absent(CharSet(text), 0);
            var d := Dictionary(cc, text, minFrequency);
            && |d| == (if |cs| < |free| then |cs| else |free|)
            && (forall i :: 0 <= i < |d| ==> d[i] == DictEntry(cs[i].text, free[i], cs[i].frequency))
            && (forall i :: 0 <= i < |d| ==>
                  |d[i].code| == 1 && SG.IsCodeChar(d[i].code[0]) && d[i].code[0] !in text)
            && (forall i, j :: 0 <= i < j < |d| ==> d[i].code[0] < d[j].code[0])
            && Distinct(Codes(d)) && Distinct(Words(d))
            && (forall i :: 0 <= i < |d| ==>
                  Validation.ShouldEncodeWord(cc, Some(d[i].word))
                  && d[i].frequency == Tokenizer.WordCount(ts, d[i].word) >= minFrequency)
  {
    var ts := Tokenizer.Tokenize(cc, Some(text));
    var cs := SelectWords(cc, ts, minFrequency);
    var free := SG.Absent(CharSet(text), 0);
    var d := Dictionary(cc, text, minFrequency);
    AssignSmartIssues(SG.New(text), cs);
    SG.FreshGeneratorIssues(text);
    SG.AbsentIncreasing(CharSet(text), 0);
    forall i, j | 0 <= i < j < |d| ensures Codes(d)[i] != Codes(d)[j] && Words(d)[i] != Words(d)[j] {
      assert free[i][0] < free[j][0];
      assert Texts(cs)[i] != Texts(cs)[j];
    }
    forall i | 0 <= i < |d| ensures cs[i] in cs { }
  }

  // ---------------------------------------------------------------------
  // Encoding and grouping

  /** The source's `encodeTextSimple`: every occurrence of each word,
      longest word first, replaced by its code with no boundary test,
      scanning on after the inserted code. With distinct words the
      word-to-code map holds exactly the dictionary's pairs. */
  function EncodeSimple(cc: CharClasses, text: string, d: seq<DictEntry>): (r: string)
    requires NonEmptyWords(d)
    ensures Reversible(d) && CodeFree(CodeMap(d), text) ==> Expand(CodeMap(d), r) == text
  {
    Encode(cc, false, text, d)
  }

  /** The two-character group header for a run of `n` codes. */
  function GroupHeader(n: nat): (h: string)
    requires n <= 9
    ensures |h| == 2 && h[0] == GroupMarker && IsAsciiDigit(h[1]) && h[1] as int - '0' as int == n
  {
    [GroupMarker, DigitChar(n)]
  }

  /** The source's `groupCodesWithoutMarker`, as written: a maximal run of
      two or more code symbols becomes a header with the count capped at
      9 followed by the first (at most nine) symbols, and the scan resumes
      after the whole run, so symbols past the ninth are dropped. */
  function GroupAsWritten(singles: set<char>, s: string): (r: string)
    ensures (forall i :: 0 <= i < |s| ==> s[i] !in singles) ==> r == s
    ensures forall c :: c in r ==> c in s || c == GroupMarker || IsAsciiDigit(c)
    decreases |s|
  {
    if |s| == 0 then ""
    else if s[0] in singles && CodeRun(singles, s) >= 2 then
      var k := CodeRun(singles, s);
      var n := if k < 9 then k else 9;
      GroupHeader(n) + s[..n] + GroupAsWritten(singles, s[k..])
    else [s[0]] + GroupAsWritten(singles, s[1..])
  }

  /** The grouping with the scan resuming after the symbols it emitted:
      a run longer than nine continues as further groups. */
  function GroupFixed(singles: set<char>, s: string): (r: string)
    decreases |s|
  {
    if |s| == 0 then ""
    else if s[0] in singles && CodeRun(singles, s) >= 2 then
      var k := CodeRun(singles, s);
      var n := if k < 9 then k else 9;
      GroupHeader(n) + s[..n] + GroupFixed(singles, s[n..])
    else [s[0]] + GroupFixed(singles, s[1..])
  }

  /** No run of more than nine adjacent code symbols. */
  predicate ShortRuns(singles: set<char>, s: string) {
    forall i :: 0 <= i < |s| ==> CodeRun(singles, s[i..]) <= 9
  }

  // ---------------------------------------------------------------------
  // Compression and decompression

  /** The source's `compress`: null or empty text gives the empty result;
      otherwise the dictionary, the substituted and grouped text and the
      statistics. The phrase arguments are accepted and not used. */
  function Compress(cc: CharClasses, text: Option<string>, minFrequency: int,
                    maxPhraseTokens: int, minPhraseLength: int): (r: CompressionResult)
    ensures text.None? || text == Some("") ==> r == EmptyResult()
    ensures text.Some? ==>
              && r.dictionary == Dictionary(cc, text.value, minFrequency)
              && r.stats == Statistics(|text.value|, |r.compressedText|, |r.dictionary|)
  {
    if text.None? || |text.value| == 0 then EmptyResult()
    else
      var t := text.value;
      var d := Dictionary(cc, t, minFrequency);
      var grouped := GroupAsWritten(SingleCodes(d), EncodeSimple(cc, t, d));
      CompressionResult(grouped, d, Statistics(|t|, |grouped|, |d|))
  }

  /** `compress(text)`: minimum frequency 2, at most 5 phrase tokens,
      phrases of at least 7 characters. */
  function CompressDefault(cc: CharClasses, text: Option<string>): (r: CompressionResult)
    ensures text.None? || text == Some("") ==> r == EmptyResult()
    ensures text.Some? ==> r.dictionary == Dictionary(cc, text.value, 2)
  {
    Compress(cc, text, DefaultMinFrequency, DefaultMaxPhraseTokens, DefaultMinPhraseLength)
  }

  /** `compress` with the corrected grouping. */
  function CompressFixed(cc: CharClasses, text: Option<string>, minFrequency: int,
                         maxPhraseTokens: int, minPhraseLength: int): (r: CompressionResult)
    ensures text.None? || text == Some("") ==> r == EmptyResult()
    ensures text.Some? ==>
              && r.dictionary == Dictionary(cc, text.value, minFrequency)
              && r.stats == Statistics(|text.value|, |r.compressedText|, |r.dictionary|)
  {
    if text.None? || |text.value| == 0 then EmptyResult()
    else
      var t := text.value;
      var d := Dictionary(cc, t, minFrequency);
      var grouped := GroupFixed(SingleCodes(d), EncodeSimple(cc, t, d));
      CompressionResult(grouped, d, Statistics(|t|, |grouped|, |d|))
  }

  /** The decoding loop of `decompress`: a group marker followed by a
      digit (`Character.isDigit`) announces that many symbols, each
      replaced by its word or kept when it has none; a group marker before
      anything else is copied; a one-symbol code is replaced by its word;
      every other character is copied. */
  function DecodeFrom(cc: CharClasses, m: map<string, string>, singles: set<char>, s: string): (r: string)
    ensures GroupMarker !in s && (forall c :: c in singles <==> [c] in m) ==> r == Expand(m, s)
    decreases |s|
  {
    if |s| == 0 then ""
    else if s[0] == GroupMarker && |s| >= 2 then
      if cc.isDigit(s[1]) then
        var n := s[1] as int - '0' as int;
        var k := if n <= 0 then 0 else if n < |s| - 2 then n else |s| - 2;
        Expand(m, s[2..2 + k]) + DecodeFrom(cc, m, singles, s[2 + k..])
      else [GroupMarker] + DecodeFrom(cc, m, singles, s[1..])
    else if s[0] in singles then ExpandChar(m, s[0]) + DecodeFrom(cc, m, singles, s[1..])
    else [s[0]] + DecodeFrom(cc, m, singles, s[1..])
  }

  /** The source's `decompress`: a null text or dictionary returns the
      text unchanged; in text without group headers every one-symbol code
      becomes its word and everything else is copied. */
  function Decompress(cc: CharClasses, compressed: Option<string>, d: Option<seq<DictEntry>>): (r: Option<string>)
    ensures compressed.None? || d.None? ==> r == compressed
    ensures compressed.Some? && d.Some? ==> r.Some?
    ensures compressed.Some? && d.Some? && GroupMarker !in compressed.value ==>
              r == Some(Expand(CodeMap(d.value), compressed.value))
  {
    if compressed.None? || d.None? then compressed
    else Some(DecodeFrom(cc, CodeMap(d.value), SingleCodes(d.value), compressed.value))
  }
}
