/** DictionaryBuilder: the older dictionary path. Words are ranked by
    frequency times length, given the sequential codes of the Unicode
    helper's generator (U+3400 upwards, with no check against the text)
    until that generator runs out, and the dictionary has a plain text
    form between a header line and an end marker. */
module DictionaryBuilder {
  import opened Wrappers
  import opened Seqs
  import opened Model
  import UH = UnicodeHelper
  import DT = DictionaryText

  /** `getOrDefault(w, 0)` on the frequency map. */
  function FrequencyOf(freq: map<string, int>, w: string): int {
    if w in freq then freq[w] else 0
  }

  /** The ranking key of the sort: frequency (0 when missing) times
      length. */
  function ScoreKey(freq: map<string, int>): string -> int {
    w => FrequencyOf(freq, w) * |w|
  }

  /** The ranking of an entry, from its stored frequency and word. */
  function EntryScore(e: DictEntry): int {
    e.frequency * |e.word|
  }

  function Min(a: int, b: int): int {
    if a <= b then a else b
  }

  /** The loop of `buildDictionary`: one entry per word, coded by the
      generator, stopping at the first word the generator has no code
      for. */
  function BuildFrom(ws: seq<string>, freq: map<string, int>, g: UH.CodeGen): (d: seq<DictEntry>)
    ensures |d| <= |ws|
    decreases |ws|
  {
    if |ws| == 0 then []
    else
      var s := UH.NextCode(g);
      if s.code.None? then []
      else [DictEntry(ws[0], s.code.value, FrequencyOf(freq, ws[0]))] + BuildFrom(ws[1..], freq, s.gen)
  }

  /** The loop codes the words in order with the codes the generator
      issues, one each, for as long as it issues them. */
  lemma {:induction false} BuildFromEntries(ws: seq<string>, freq: map<string, int>, g: UH.CodeGen)
    ensures var d, codes := BuildFrom(ws, freq, g), UH.IssueAll(g);
            && |d| == Min(|ws|, |codes|)
            && forall i :: 0 <= i < |d| ==> d[i] == DictEntry(ws[i], codes[i], FrequencyOf(freq, ws[i]))
    decreases |ws|
  {
    var d, codes := BuildFrom(ws, freq, g), UH.IssueAll(g);
    if |ws| > 0 {
      var s := UH.NextCode(g);
      if s.code.Some? {
        var rest := BuildFrom(ws[1..], freq, s.gen);
        BuildFromEntries(ws[1..], freq, s.gen);
        assert codes == [s.code.value] + UH.IssueAll(s.gen);
        assert d == [DictEntry(ws[0], s.code.value, FrequencyOf(freq, ws[0]))] + rest;
        forall i | 0 < i < |d| ensures d[i] == DictEntry(ws[i], codes[i], FrequencyOf(freq, ws[i])) {
          ConsIndex(DictEntry(ws[0], s.code.value, FrequencyOf(freq, ws[0])), rest, i);
          ConsIndex(s.code.value, UH.IssueAll(s.gen), i);
          assert ws[1..][i - 1] == ws[i];
        }
      } else {
        assert codes == [];
      }
    }
  }

  /** The source's `buildDictionary`: no words (Java null or an empty
      list) give an empty dictionary; otherwise the words, ranked by
      frequency times length with a stable sort, are coded from a fresh
      generator. */
  function BuildDictionary(words: Option<seq<string>>, freq: map<string, int>): (d: seq<DictEntry>)
    ensures words.None? || words == Some([]) ==> d == []
    ensures words.Some? ==> |d| <= |words.value|
  {
    if words.None? || |words.value| == 0 then []
    else BuildFrom(SortDesc(words.value, ScoreKey(freq)), freq, UH.New())
  }

  /** Entry `i` holds the `i`-th ranked word, the code U+3400 + i and the
      word's frequency (0 when missing); the dictionary stops after 6592
      entries, when the generator runs out. */
  lemma BuildDictionaryEntries(words: seq<string>, freq: map<string, int>)
    ensures var d, ranked := BuildDictionary(Some(words), freq), SortDesc(words, ScoreKey(freq));
            && |d| == Min(|words|, 6592)
            && forall i :: 0 <= i < |d| ==>
                 && d[i].word == ranked[i]
                 && |d[i].code| == 1 && d[i].code[0] as int == 0x3400 + i
                 && d[i].frequency == FrequencyOf(freq, ranked[i])
  {
    var ranked := SortDesc(words, ScoreKey(freq));
    UH.FreshGeneratorIssues();
    BuildFromEntries(ranked, freq, UH.New());
  }

  /** The entries are in ranking order: frequency times length never
      increases along the dictionary. */
  lemma BuildDictionaryRanked(words: seq<string>, freq: map<string, int>)
    ensures var d := BuildDictionary(Some(words), freq);
            forall i, j :: 0 <= i < j < |d| ==> EntryScore(d[i]) >= EntryScore(d[j])
  {
    var d, ranked := BuildDictionary(Some(words), freq), SortDesc(words, ScoreKey(freq));
    BuildDictionaryEntries(words, freq);
    forall i, j | 0 <= i < j < |d| ensures EntryScore(d[i]) >= EntryScore(d[j]) {
      assert EntryScore(d[i]) == ScoreKey(freq)(ranked[i]);
      assert EntryScore(d[j]) == ScoreKey(freq)(ranked[j]);
    }
  }

  /** Every entry's word is one of the given words. */
  lemma BuildDictionaryWords(words: seq<string>, freq: map<string, int>)
    ensures var d := BuildDictionary(Some(words), freq);
            forall i :: 0 <= i < |d| ==> d[i].word in words
  {
    var d, ranked := BuildDictionary(Some(words), freq), SortDesc(words, ScoreKey(freq));
    BuildDictionaryEntries(words, freq);
    SortDescMembers(words, ScoreKey(freq));
    forall i | 0 <= i < |d| ensures d[i].word in words {
      assert d[i].word == ranked[i] && ranked[i] in ranked;
    }
  }

  /** When the generator does not run out, each given word is entered
      exactly as often as it was given. */
  lemma BuildDictionaryKeepsAll(words: seq<string>, freq: map<string, int>)
    requires |words| <= 6592
    ensures multiset(Words(BuildDictionary(Some(words), freq))) == multiset(words)
  {
    var d, ranked := BuildDictionary(Some(words), freq), SortDesc(words, ScoreKey(freq));
    BuildDictionaryEntries(words, freq);
    assert Words(d) == ranked;
  }

  /** The codes are single symbols of U+3400..U+4DBF, strictly increasing
      along the dictionary, hence pairwise distinct. */
  lemma BuildDictionaryCodes(words: seq<string>, freq: map<string, int>)
    ensures var d := BuildDictionary(Some(words), freq);
            && (forall i :: 0 <= i < |d| ==> |d[i].code| == 1 && UH.IsInCodeRange(d[i].code[0]))
            && (forall i, j :: 0 <= i < j < |d| ==> d[i].code[0] < d[j].code[0])
            && Distinct(Codes(d))
  {
    var d := BuildDictionary(Some(words), freq);
    BuildDictionaryEntries(words, freq);
    forall i, j | 0 <= i < |d| && 0 <= j < |d| && i != j ensures Codes(d)[i] != Codes(d)[j] {
      assert d[i].code[0] != d[j].code[0];
    }
  }

  // ---------------------------------------------------------------------
  // The candidate path

  /** The loop of `assignCodes`: each candidate in turn takes the next
      code; once the generator has none, the loop stops and the remaining
      candidates keep what they had. */
  function AssignFrom(cs: seq<Candidate>, g: UH.CodeGen): (r: seq<Candidate>)
    ensures |r| == |cs|
    decreases |cs|
  {
    if |cs| == 0 then []
    else
      var s := UH.NextCode(g);
      if s.code.None? then cs
      else [cs[0].(code := s.code)] + AssignFrom(cs[1..], s.gen)
  }

  /** The candidates keep their texts and frequencies; the first ones
      take the issued codes in order and the rest are untouched. */
  lemma {:induction false} AssignFromEntries(cs: seq<Candidate>, g: UH.CodeGen)
    ensures var r, codes := AssignFrom(cs, g), UH.IssueAll(g);
            forall i :: 0 <= i < |cs| ==>
              && (i < |codes| ==> r[i] == cs[i].(code := Some(codes[i])))
              && (i >= |codes| ==> r[i] == cs[i])
    decreases |cs|
  {
    var r, codes := AssignFrom(cs, g), UH.IssueAll(g);
    if |cs| > 0 {
      var s := UH.NextCode(g);
      if s.code.Some? {
        var rest := AssignFrom(cs[1..], s.gen);
        AssignFromEntries(cs[1..], s.gen);
        assert codes == [s.code.value] + UH.IssueAll(s.gen);
        assert r == [cs[0].(code := s.code)] + rest;
        forall i | 0 < i < |cs|
          ensures && (i < |codes| ==> r[i] == cs[i].(code := Some(codes[i])))
                  && (i >= |codes| ==> r[i] == cs[i])
        {
          ConsIndex(cs[0].(code := s.code), rest, i);
          assert cs[1..][i - 1] == cs[i];
          if i < |codes| {
            ConsIndex(s.code.value, UH.IssueAll(s.gen), i);
          }
        }
      } else {
        assert codes == [];
      }
    }
  }

  /** The source's `assignCodes`, which sets the codes of the candidates
      in place; here it returns the updated list. */
  function AssignCodes(cs: seq<Candidate>): (r: seq<Candidate>)
    ensures |r| == |cs|
  {
    AssignFrom(cs, UH.New())
  }

  /** Candidate `i` gets the code U+3400 + i for the first 6592
      candidates; later candidates are left as they were. */
  lemma AssignCodesEntries(cs: seq<Candidate>)
    ensures var r := AssignCodes(cs);
            forall i :: 0 <= i < |cs| ==>
              && r[i].text == cs[i].text && r[i].frequency == cs[i].frequency
              && (i < 6592 ==> r[i].code.Some? && |r[i].code.value| == 1 && r[i].code.value[0] as int == 0x3400 + i)
              && (i >= 6592 ==> r[i] == cs[i])
  {
    UH.FreshGeneratorIssues();
    AssignFromEntries(cs, UH.New());
  }

  /** Every candidate holds a code. */
  predicate AllCoded(cs: seq<Candidate>) {
    forall i :: 0 <= i < |cs| ==> cs[i].code.Some?
  }

  /** The source's `buildDictionaryFromCandidates`: one entry per
      candidate, in order, with its text, code and frequency. */
  function BuildDictionaryFromCandidates(cs: seq<Candidate>): (d: seq<DictEntry>)
    requires AllCoded(cs)
    ensures |d| == |cs|
    ensures forall i :: 0 <= i < |cs| ==> d[i] == DictEntry(cs[i].text, cs[i].code.value, cs[i].frequency)
  {
    seq(|cs|, i requires 0 <= i < |cs| => DictEntry(cs[i].text, cs[i].code.value, cs[i].frequency))
  }

  /** The candidates of a word list: each word with its frequency (0
      when missing) and no code yet. */
  function CandidatesOf(ws: seq<string>, freq: map<string, int>): (cs: seq<Candidate>)
    ensures |cs| == |ws|
    ensures forall i :: 0 <= i < |ws| ==> cs[i] == Candidate(ws[i], FrequencyOf(freq, ws[i]), None)
  {
    seq(|ws|, i requires 0 <= i < |ws| => Candidate(ws[i], FrequencyOf(freq, ws[i]), None))
  }

  /** While the generator has a code for every word, coding the words as
      candidates and building from them gives the loop's entries. */
  lemma AssignThenBuild(ws: seq<string>, freq: map<string, int>, g: UH.CodeGen)
    requires g.current as int + |ws| <= UH.RangeEnd as int + 1
    ensures var cs := AssignFrom(CandidatesOf(ws, freq), g);
            AllCoded(cs) && BuildDictionaryFromCandidates(cs) == BuildFrom(ws, freq, g)
  {
    UH.IssueAllFrom(g);
    var cs := AssignFrom(CandidatesOf(ws, freq), g);
    AssignFromEntries(CandidatesOf(ws, freq), g);
    BuildFromEntries(ws, freq, g);
  }

  /** Up to the generator's 6592 codes, every candidate is coded, and
      the two paths agree: coding the ranked words as candidates and
      building from them gives the dictionary of `buildDictionary`. */
  lemma CandidatePathAgrees(words: seq<string>, freq: map<string, int>)
    requires |words| <= 6592
    ensures var cs := AssignCodes(CandidatesOf(SortDesc(words, ScoreKey(freq)), freq));
            && AllCoded(cs)
            && BuildDictionaryFromCandidates(cs) == BuildDictionary(Some(words), freq)
  {
    AssignThenBuild(SortDesc(words, ScoreKey(freq)), freq, UH.New());
  }

  // ---------------------------------------------------------------------
  // Text form

  const Header: string := "# SABER_W DICTIONARY v1 #"
  const Footer: string := "# END #"

  /** The source's `formatDictionary`: the header line, one `code=word`
      line per entry, then the end marker without a line break; so,
      without line breaks in codes and words, one line break per entry
      and one after the header. */
  function FormatDictionary(d: seq<DictEntry>): (r: string)
    ensures |r| > 0 && r[|r| - 1] != '\n'
    ensures DT.EntriesNoBreaks(d) ==> Count(r, '\n') == |d| + 1
  {
    var r := Header + "\n" + DT.Render(d) + Footer;
    BreaksAround(Header, DT.Render(d), Footer);
    r
  }

  /** A line break after `h` and the text `f` after `body` add one line
      break when neither `h` nor `f` holds one. */
  lemma BreaksAround(h: string, body: string, f: string)
    requires '\n' !in h && '\n' !in f && |f| > 0
    ensures var r := h + "\n" + body + f;
            |r| > 0 && r[|r| - 1] != '\n' && Count(r, '\n') == Count(body, '\n') + 1
  {
    CountAppend(h + "\n" + body, f, '\n');
    CountAppend(h + "\n", body, '\n');
    CountAppend(h, "\n", '\n');
    CountSingle('\n', '\n');
    assert (h + "\n" + body + f)[|h + "\n" + body + f| - 1] == f[|f| - 1];
  }

  /** Without line breaks in codes and words, the formatted text's lines
      are the header, the entry lines in order, and the end marker. */
  lemma FormatLines(d: seq<DictEntry>)
    requires DT.EntriesNoBreaks(d)
    ensures DT.JavaSplit(FormatDictionary(d), '\n') == [Header] + DT.Lines(d) + [Footer]
  {
    forall i | 0 <= i < |d| ensures '\n' !in DT.EntryLine(d[i]) {
      DT.EntryLineChars(d[i]);
    }
    var body := DT.Render(d) + Footer;
    assert FormatDictionary(d) == Header + "\n" + body;
    assert FormatDictionary(d)[|Header|] == '\n';
    assert '\n' !in Header;
    DT.SplitLine(Header, body, '\n');
    DT.RenderSplit(d, Footer);
    assert '\n' !in Footer;
    DT.ListAssoc([Header], DT.Lines(d), [Footer]);
    DT.SplitKeepsLast(FormatDictionary(d), [Header] + DT.Lines(d) + [Footer]);
  }

  /** The header and end marker hold no `=`, so the GUI's parser skips
      them: parsing the formatted text of line-safe entries gives back
      every code and word, with frequencies 0. */
  lemma FormatParses(d: seq<DictEntry>)
    requires DT.EntriesNoBreaks(d) && forall i :: 0 <= i < |d| ==> DT.LineSafe(d[i])
    ensures DT.ParseDictionary(FormatDictionary(d)) == DT.Unweighted(d)
  {
    FormatLines(d);
    assert '=' !in Header && '=' !in Footer;
    SkipMarkers(Header, DT.Lines(d), Footer);
    DT.ParseSafeLines(d);
  }

  /** The parser skips a first and a last line without `=`. */
  lemma SkipMarkers(h: string, ls: seq<string>, f: string)
    requires '=' !in h && '=' !in f
    ensures DT.ParseLines([h] + ls + [f]) == DT.ParseLines(ls)
  {
    DT.ParseLinesAppend([h], ls + [f]);
    DT.ParseLinesAppend(ls, [f]);
    assert [h] + ls + [f] == [h] + (ls + [f]);
    assert DT.ParseLine(h).None? && DT.ParseLine(f).None?;
    assert [h][1..] == [] && [f][1..] == [];
  }
}
