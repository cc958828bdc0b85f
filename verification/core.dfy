/** The boundary-checked codec (SaberWCore): words are counted, admitted
    by the five-argument admission rule, ranked by benefit, given codes
    by the primary/extended/pair allocator, substituted as whole words
    longest first, and runs of two to nine one-symbol codes get a group
    header. The decoder strips a leading lower-case marker, expands group
    records, then tries one-symbol codes before two-symbol codes. */
module SaberWCore {
  import opened Wrappers
  import opened Seqs
  import opened Unicode
  import opened Model
  import opened Codec
  import Validation
  import Tokenizer
  import PhraseFinder
  import IG = ImprovedCodeGenerator

  const MinWordLength: int := 3
  const MinFrequency: int := 2
  const MinFrequencyFor2Chars: int := 6
  const MaxPhraseTokens: int := 5
  const MinPhraseLength: int := 7

  /** A codec instance: the text it was built for, its two switches and
      its code generator, whose cursors persist from one call to the
      next. */
  datatype Core = Core(originalText: string, normalizeToLowercase: bool, aggressiveCompression: bool,
                       gen: IG.Gen)

  /** Lower-casing applies when it is switched on and the text does not
      look like program source. */
  predicate Lowercases(core: Core) {
    core.normalizeToLowercase && !Validation.IsLikelySourceCode(Some(core.originalText))
  }

  /** The text the codec works on: the original, or its lower-cased form. */
  function TextToProcess(cc: CharClasses, core: Core): (t: string)
    ensures |t| == |core.originalText|
    ensures !Lowercases(core) ==> t == core.originalText
  {
    if Lowercases(core) then IG.NormalizeText(cc, Some(core.originalText), false).value
    else core.originalText
  }

  /** The constructor: the generator is built over the processed text. */
  function NewCore(cc: CharClasses, text: string, normalizeToLowercase: bool, aggressiveCompression: bool): (core: Core)
    ensures core.originalText == text
    ensures core.gen == IG.New(TextToProcess(cc, core))
  {
    var core := Core(text, normalizeToLowercase, aggressiveCompression, IG.New(text));
    core.(gen := IG.New(TextToProcess(cc, core)))
  }

  /** The generator was built over the processed text (it may have issued
      codes since). */
  predicate ValidCore(cc: CharClasses, core: Core) {
    core.gen.textChars == CharSet(TextToProcess(cc, core))
  }

  // ---------------------------------------------------------------------
  // Word frequencies and candidates

  /** The values of the WORD tokens made only of letters and digits, in
      text order. */
  function AlnumWords(cc: CharClasses, ts: seq<Token>): (ws: seq<string>)
    ensures forall w :: Count(ws, w) == if Validation.IsAlphanumericWord(cc, Some(w)) then Tokenizer.WordCount(ts, w) else 0
    decreases |ts|
  {
    if |ts| == 0 then []
    else
      var prev := AlnumWords(cc, ts[..|ts| - 1]);
      var t := ts[|ts| - 1];
      var ws := if t.kind == Word && Validation.IsAlphanumericWord(cc, Some(t.value)) then prev + [t.value] else prev;
      assert forall w :: Count(ws, w) == Count(prev, w) + (if ws != prev && t.value == w then 1 else 0) by {
        forall w ensures Count(ws, w) == Count(prev, w) + (if ws != prev && t.value == w then 1 else 0) {
          if ws != prev {
            CountAppend(prev, [t.value], w);
            CountSingle(t.value, w);
          }
        }
      }
      ws
  }

  /** One entry of the word-frequency map. */
  datatype Freq = Freq(word: string, count: int)

  function FreqWords(fs: seq<Freq>): (ws: seq<string>)
    ensures |ws| == |fs| && forall i :: 0 <= i < |fs| ==> ws[i] == fs[i].word
  {
    seq(|fs|, i requires 0 <= i < |fs| => fs[i].word)
  }

  /** The source's `analyzeWordFrequency`: each distinct alphanumeric WORD
      token with its number of occurrences (first-occurrence order stands
      in for the hash map's order). */
  function AnalyzeWordFrequency(cc: CharClasses, ts: seq<Token>): (fs: seq<Freq>)
    ensures Distinct(FreqWords(fs))
    ensures forall i :: 0 <= i < |fs| ==>
              && Validation.IsAlphanumericWord(cc, Some(fs[i].word))
              && fs[i].count == Tokenizer.WordCount(ts, fs[i].word) > 0
    ensures forall w :: w in FreqWords(fs) <==>
              Validation.IsAlphanumericWord(cc, Some(w)) && Tokenizer.WordCount(ts, w) > 0
  {
    var ws := AlnumWords(cc, ts);
    var keys := Dedup(ws);
    DedupMembers(ws);
    var fs := seq(|keys|, i requires 0 <= i < |keys| => Freq(keys[i], Count(ws, keys[i])));
    assert FreqWords(fs) == keys;
    fs
  }

  /** The sort key of `selectCandidates`: the benefit of coding the word
      with a one-symbol code. */
  function BenefitKey(c: Candidate): int {
    IG.CalculateBenefit(Some(c.text), c.frequency, Some("?"))
  }

  /** The entries passing the five-argument admission rule, as uncoded
      candidates, in map order. */
  function Admit(fs: seq<Freq>, minWordLength: int, minFrequency: int, minFrequencyFor2Chars: int): (cs: seq<Candidate>)
    ensures forall c :: c in cs <==>
              && c.code == None && Freq(c.text, c.frequency) in fs
              && Validation.ShouldEncodeWordWithFrequency(Some(c.text), c.frequency, minWordLength,
                                                          minFrequency, minFrequencyFor2Chars)
    decreases |fs|
  {
    if |fs| == 0 then []
    else
      var f := fs[|fs| - 1];
      var prev := Admit(fs[..|fs| - 1], minWordLength, minFrequency, minFrequencyFor2Chars);
      assert fs == fs[..|fs| - 1] + [f];
      if Validation.ShouldEncodeWordWithFrequency(Some(f.word), f.count, minWordLength, minFrequency, minFrequencyFor2Chars)
      then prev + [Candidate(f.word, f.count, None)]
      else prev
  }

  /** The source's `selectCandidates`: the admitted words, ranked by
      benefit, highest first (a stable sort). */
  function SelectCandidates(fs: seq<Freq>, minWordLength: int, minFrequency: int,
                            minFrequencyFor2Chars: int): (cs: seq<Candidate>)
    ensures SortedDesc(cs, BenefitKey)
    ensures forall c :: c in cs <==>
              && c.code == None && Freq(c.text, c.frequency) in fs
              && Validation.ShouldEncodeWordWithFrequency(Some(c.text), c.frequency, minWordLength,
                                                          minFrequency, minFrequencyFor2Chars)
  {
    var admitted := Admit(fs, minWordLength, minFrequency, minFrequencyFor2Chars);
    SortDescMembers(admitted, BenefitKey);
    SortDesc(admitted, BenefitKey)
  }

  // ---------------------------------------------------------------------
  // Code assignment

  /** One call of the allocator; `singlesOnly` selects the allocator with
      the pair stage removed. */
  function Issue(g: IG.Gen, singlesOnly: bool): (r: IG.Step)
    ensures r.gen.textChars == g.textChars && r.gen.textBigrams == g.textBigrams
    ensures r.code.Some? ==> IG.IsCodeSafe(g, r.code)
    ensures r.code.Some? ==> IG.IsSingleCode(r.code.value) || IG.IsPairCode(r.code.value)
    ensures r.code.Some? && singlesOnly ==> IG.IsSingleCode(r.code.value)
    ensures IG.Pos(g) <= IG.Pos(r.gen)
    ensures r.code.Some? ==> IG.Pos(g) <= IG.Rank(r.code.value) < IG.Pos(r.gen)
  {
    if singlesOnly then IG.NextSingleCode(g) else IG.NextCode(g)
  }

  datatype Assigned = Assigned(kept: seq<Candidate>, gen: IG.Gen)

  function CodeOf(c: Candidate): string {
    c.code.GetOr("")
  }

  /** The source's `assignCodes`: each candidate in turn asks for a code;
      it keeps a code that `isCodeSafe` accepts and is dropped when the
      allocator throws. */
  function AssignCodes(g: IG.Gen, cs: seq<Candidate>, singlesOnly: bool): (r: Assigned)
    ensures r.gen.textChars == g.textChars && r.gen.textBigrams == g.textBigrams
    ensures IG.Pos(g) <= IG.Pos(r.gen)
    ensures |r.kept| <= |cs|
    ensures forall i :: 0 <= i < |r.kept| ==> r.kept[i].code.Some?
    decreases |cs|
  {
    if |cs| == 0 then Assigned([], g)
    else
      var s := Issue(g, singlesOnly);
      var rest := AssignCodes(s.gen, cs[1..], singlesOnly);
      if s.code.Some? && IG.IsCodeSafe(g, s.code) then
        var kept := [cs[0].(code := s.code)] + rest.kept;
        assert forall i :: 0 < i < |kept| ==> kept[i] == rest.kept[i - 1];
        Assigned(kept, rest.gen)
      else
        Assigned(rest.kept, rest.gen)
  }

  /** What a kept code satisfies: it passes `isCodeSafe` against the text
      of `g`, has the shape of a one- or two-symbol code (one-symbol only
      with `singlesOnly`), and was issued after `g` and before `gEnd`. */
  predicate IssuedBetween(g: IG.Gen, gEnd: IG.Gen, code: Option<string>, singlesOnly: bool) {
    && IG.IsCodeSafe(g, code)
    && (IG.IsSingleCode(code.GetOr("")) || IG.IsPairCode(code.GetOr("")))
    && (singlesOnly ==> IG.IsSingleCode(code.GetOr("")))
    && IG.Pos(g) <= IG.Rank(code.GetOr("")) < IG.Pos(gEnd)
  }

  /** A code issued after a later generator state, over the same text, was
      issued after an earlier one too. */
  lemma IssuedEarlier(g: IG.Gen, g2: IG.Gen, gEnd: IG.Gen, code: Option<string>, singlesOnly: bool)
    requires IssuedBetween(g2, gEnd, code, singlesOnly)
    requires g.textChars == g2.textChars && g.textBigrams == g2.textBigrams && IG.Pos(g) <= IG.Pos(g2)
    ensures IssuedBetween(g, gEnd, code, singlesOnly)
  {
  }

  /** One step of `AssignCodes`: the head keeps its code or is dropped. */
  lemma AssignStep(g: IG.Gen, cs: seq<Candidate>, singlesOnly: bool)
    requires |cs| > 0
    ensures var s := Issue(g, singlesOnly);
            var rest := AssignCodes(s.gen, cs[1..], singlesOnly);
            var r := AssignCodes(g, cs, singlesOnly);
            && r.gen == rest.gen
            && if s.code.Some? && IG.IsCodeSafe(g, s.code) then r.kept == [cs[0].(code := s.code)] + rest.kept
               else r.kept == rest.kept
  {
  }

  /** Every code of the list was issued between `g` and `gEnd`. */
  predicate AllIssuedBetween(g: IG.Gen, gEnd: IG.Gen, kept: seq<Candidate>, singlesOnly: bool) {
    forall i :: 0 <= i < |kept| ==> IssuedBetween(g, gEnd, kept[i].code, singlesOnly)
  }

  lemma IssuedHead(g: IG.Gen, g2: IG.Gen, gEnd: IG.Gen, code: Option<string>, singlesOnly: bool)
    requires IG.IsCodeSafe(g, code)
    requires IG.IsSingleCode(code.GetOr("")) || IG.IsPairCode(code.GetOr(""))
    requires singlesOnly ==> IG.IsSingleCode(code.GetOr(""))
    requires IG.Pos(g) <= IG.Rank(code.GetOr("")) < IG.Pos(g2) <= IG.Pos(gEnd)
    ensures IssuedBetween(g, gEnd, code, singlesOnly)
  {
  }

  lemma AllIssuedCons(g: IG.Gen, g2: IG.Gen, gEnd: IG.Gen, x: Candidate, rest: seq<Candidate>, singlesOnly: bool)
    requires IssuedBetween(g, gEnd, x.code, singlesOnly) && AllIssuedBetween(g2, gEnd, rest, singlesOnly)
    requires g.textChars == g2.textChars && g.textBigrams == g2.textBigrams && IG.Pos(g) <= IG.Pos(g2)
    ensures AllIssuedBetween(g, gEnd, [x] + rest, singlesOnly)
  {
    var l := [x] + rest;
    forall i | 0 <= i < |l| ensures IssuedBetween(g, gEnd, l[i].code, singlesOnly) {
      if i > 0 {
        assert l[i] == rest[i - 1];
        IssuedEarlier(g, g2, gEnd, rest[i - 1].code, singlesOnly);
      }
    }
  }

  lemma AllIssuedEarlier(g: IG.Gen, g2: IG.Gen, gEnd: IG.Gen, rest: seq<Candidate>, singlesOnly: bool)
    requires AllIssuedBetween(g2, gEnd, rest, singlesOnly)
    requires g.textChars == g2.textChars && g.textBigrams == g2.textBigrams && IG.Pos(g) <= IG.Pos(g2)
    ensures AllIssuedBetween(g, gEnd, rest, singlesOnly)
  {
    forall i | 0 <= i < |rest| ensures IssuedBetween(g, gEnd, rest[i].code, singlesOnly) {
      IssuedEarlier(g, g2, gEnd, rest[i].code, singlesOnly);
    }
  }

  /** Every kept code was issued during the call and is safe for the text. */
  lemma {:induction false} AssignedCodes(g: IG.Gen, cs: seq<Candidate>, singlesOnly: bool)
    ensures var r := AssignCodes(g, cs, singlesOnly);
            AllIssuedBetween(g, r.gen, r.kept, singlesOnly)
    decreases |cs|
  {
    if |cs| > 0 {
      var s := Issue(g, singlesOnly);
      var rest := AssignCodes(s.gen, cs[1..], singlesOnly);
      AssignStep(g, cs, singlesOnly);
      AssignedCodes(s.gen, cs[1..], singlesOnly);
      if s.code.Some? && IG.IsCodeSafe(g, s.code) {
        IssuedHead(g, s.gen, rest.gen, s.code, singlesOnly);
        AllIssuedCons(g, s.gen, rest.gen, cs[0].(code := s.code), rest.kept, singlesOnly);
      } else {
        AllIssuedEarlier(g, s.gen, rest.gen, rest.kept, singlesOnly);
      }
    }
  }

  /** `b` is `a` with (possibly) another code. */
  predicate Recoded(a: Candidate, b: Candidate) {
    a.text == b.text && a.frequency == b.frequency
  }

  /** `c` is an element of `cs` with (possibly) another code. */
  predicate RecodedIn(cs: seq<Candidate>, c: Candidate) {
    exists k :: 0 <= k < |cs| && Recoded(cs[k], c)
  }

  /** Each element of `kept` is an element of `cs` with a code put on it. */
  predicate CodedFrom(kept: seq<Candidate>, cs: seq<Candidate>) {
    forall i :: 0 <= i < |kept| ==> RecodedIn(cs, kept[i])
  }

  lemma CodedFromCons(code: Option<string>, rest: seq<Candidate>, cs: seq<Candidate>, keepHead: bool)
    requires |cs| > 0 && CodedFrom(rest, cs[1..])
    ensures CodedFrom(if keepHead then [cs[0].(code := code)] + rest else rest, cs)
  {
    var l := if keepHead then [cs[0].(code := code)] + rest else rest;
    forall i | 0 <= i < |l| ensures RecodedIn(cs, l[i]) {
      if keepHead && i == 0 {
        assert Recoded(cs[0], l[0]);
      } else {
        var j := if keepHead then i - 1 else i;
        assert l[i] == rest[j];
        var k :| 0 <= k < |cs[1..]| && Recoded(cs[1..][k], rest[j]);
        assert cs[1..][k] == cs[k + 1];
        assert Recoded(cs[k + 1], l[i]);
      }
    }
  }

  /** Every kept candidate is a candidate of the input with a code put on
      it. */
  lemma {:induction false} AssignedFrom(g: IG.Gen, cs: seq<Candidate>, singlesOnly: bool)
    ensures CodedFrom(AssignCodes(g, cs, singlesOnly).kept, cs)
    decreases |cs|
  {
    if |cs| > 0 {
      var s := Issue(g, singlesOnly);
      var rest := AssignCodes(s.gen, cs[1..], singlesOnly);
      AssignStep(g, cs, singlesOnly);
      AssignedFrom(s.gen, cs[1..], singlesOnly);
      CodedFromCons(s.code, rest.kept, cs, s.code.Some? && IG.IsCodeSafe(g, s.code));
    }
  }

  /** Issue positions strictly increase along a list of coded candidates. */
  predicate RanksAscending(kept: seq<Candidate>) {
    forall i, j :: 0 <= i < j < |kept| ==> IG.Rank(CodeOf(kept[i])) < IG.Rank(CodeOf(kept[j]))
  }

  /** Every code of the list sits at issue position `lo` or later. */
  predicate RanksFrom(kept: seq<Candidate>, lo: int) {
    forall i :: 0 <= i < |kept| ==> lo <= IG.Rank(CodeOf(kept[i]))
  }

  lemma AscendingCons(x: Candidate, rest: seq<Candidate>, lo: int)
    requires RanksAscending(rest) && RanksFrom(rest, lo) && IG.Rank(CodeOf(x)) < lo
    ensures RanksAscending([x] + rest)
  {
    var l := [x] + rest;
    forall i, j | 0 <= i < j < |l| ensures IG.Rank(CodeOf(l[i])) < IG.Rank(CodeOf(l[j])) {
      assert l[j] == rest[j - 1];
      if i > 0 {
        assert l[i] == rest[i - 1];
      }
    }
  }

  /** Every kept code was issued from the generator state the call began
      with onwards. */
  lemma AssignedAbove(g: IG.Gen, cs: seq<Candidate>, singlesOnly: bool)
    ensures RanksFrom(AssignCodes(g, cs, singlesOnly).kept, IG.Pos(g))
  {
    var kept := AssignCodes(g, cs, singlesOnly).kept;
    AssignedCodes(g, cs, singlesOnly);
    forall k | 0 <= k < |kept| ensures IG.Pos(g) <= IG.Rank(CodeOf(kept[k])) {
      assert IssuedBetween(g, AssignCodes(g, cs, singlesOnly).gen, kept[k].code, singlesOnly);
    }
  }

  /** Issue positions strictly increase along the kept list, so no two
      kept candidates share a code. */
  lemma {:induction false} AssignedAscending(g: IG.Gen, cs: seq<Candidate>, singlesOnly: bool)
    ensures RanksAscending(AssignCodes(g, cs, singlesOnly).kept)
    decreases |cs|
  {
    if |cs| > 0 {
      var s := Issue(g, singlesOnly);
      var rest := AssignCodes(s.gen, cs[1..], singlesOnly);
      AssignStep(g, cs, singlesOnly);
      AssignedAscending(s.gen, cs[1..], singlesOnly);
      if s.code.Some? && IG.IsCodeSafe(g, s.code) {
        AssignedAbove(s.gen, cs[1..], singlesOnly);
        AscendingCons(cs[0].(code := s.code), rest.kept, IG.Pos(s.gen));
      }
    }
  }

  /** The source's `createDictionary`: one entry per coded candidate, in
      order. */
  function CreateDictionary(cs: seq<Candidate>): (d: seq<DictEntry>)
    requires forall i :: 0 <= i < |cs| ==> cs[i].code.Some?
    ensures |d| == |cs|
    ensures forall i :: 0 <= i < |cs| ==> d[i] == DictEntry(cs[i].text, cs[i].code.value, cs[i].frequency)
  {
    seq(|cs|, i requires 0 <= i < |cs| => DictEntry(cs[i].text, cs[i].code.value, cs[i].frequency))
  }

  // ---------------------------------------------------------------------
  // Group coding

  /** The header written before a run of `k` one-symbol codes: the group
      marker and the digit `k` when 2 <= k <= 9, nothing otherwise. */
  function Header(k: nat): (h: string)
    ensures 2 <= k <= 9 ==> h == [GroupMarker, DigitChar(k)]
    ensures k < 2 || k > 9 ==> h == ""
  {
    if 2 <= k <= 9 then [GroupMarker, DigitChar(k)] else ""
  }

  /** The group-coding scan: a maximal run of 2..9 one-symbol codes gets
      the header group marker + digit; shorter and longer runs and all
      other characters are copied. */
  function GroupFrom(singles: set<char>, s: string): (r: string)
    decreases |s|
  {
    if |s| == 0 then ""
    else if s[0] in singles then
      var k := CodeRun(singles, s);
      Header(k) + s[..k] + GroupFrom(singles, s[k..])
    else [s[0]] + GroupFrom(singles, s[1..])
  }

  /** The source's `applyGroupCoding`: headers are only ever inserted, so
      deleting them gives the text back, and a text without one-symbol
      codes gets none. */
  function ApplyGroupCoding(text: string, d: seq<DictEntry>): (r: string)
    ensures GroupMarker !in text ==> StripHeaders(r) == text
    ensures (forall i :: 0 <= i < |text| ==> text[i] !in SingleCodes(d)) ==> r == text
  {
    GroupFacts(SingleCodes(d), text);
    if SingleCodes(d) == {} then
      GroupNothing(text);
      text
    else GroupFrom(SingleCodes(d), text)
  }

  /** The two facts `ApplyGroupCoding` promises, for any set of codes. */
  lemma GroupFacts(singles: set<char>, s: string)
    ensures GroupMarker !in s ==> StripHeaders(GroupFrom(singles, s)) == s
    ensures (forall i :: 0 <= i < |s| ==> s[i] !in singles) ==> GroupFrom(singles, s) == s
  {
    if GroupMarker !in s {
      StripGroup(singles, s);
    }
    if forall i :: 0 <= i < |s| ==> s[i] !in singles {
      GroupPlain(singles, s);
    }
  }

  /** Text without one-symbol codes is copied unchanged. */
  lemma {:induction false} GroupPlain(singles: set<char>, s: string)
    requires forall i :: 0 <= i < |s| ==> s[i] !in singles
    ensures GroupFrom(singles, s) == s
    decreases |s|
  {
    if |s| > 0 {
      GroupPlain(singles, s[1..]);
    }
  }

  lemma {:induction false} GroupNothing(s: string)
    ensures GroupFrom({}, s) == s
    decreases |s|
  {
    if |s| > 0 {
      GroupNothing(s[1..]);
    }
  }

  /** A maximal run of codes gets a header exactly when it has 2..9 codes;
      the run itself is always copied whole. */
  lemma GroupRun(singles: set<char>, run: string, rest: string)
    requires |run| > 0 && forall i :: 0 <= i < |run| ==> run[i] in singles
    requires |rest| == 0 || rest[0] !in singles
    ensures GroupFrom(singles, run + rest) == Header(|run|) + run + GroupFrom(singles, rest)
  {
    var s := run + rest;
    CodeRunOfRun(singles, run, rest);
    assert s[0] == run[0] && s[..|run|] == run && s[|run|..] == rest;
  }

  /** Deletes every group marker together with the character after it. */
  function StripHeaders(s: string): (r: string)
    decreases |s|
  {
    if |s| == 0 then ""
    else if s[0] == GroupMarker && |s| >= 2 then StripHeaders(s[2..])
    else [s[0]] + StripHeaders(s[1..])
  }

  lemma {:induction false} StripAppend(a: string, b: string)
    requires GroupMarker !in a
    ensures StripHeaders(a + b) == a + StripHeaders(b)
    decreases |a|
  {
    if |a| == 0 {
      assert a + b == b;
    } else {
      assert (a + b)[1..] == a[1..] + b;
      StripAppend(a[1..], b);
    }
  }

  /** A header is deleted whole. */
  lemma StripHeader(k: nat, x: string)
    ensures StripHeaders(Header(k) + x) == StripHeaders(x)
  {
    var y := Header(k) + x;
    if 2 <= k <= 9 {
      assert y[0] == GroupMarker && |y| >= 2 && y[2..] == x;
    } else {
      assert y == x;
    }
  }

  /** Deleting the inserted headers restores the input. */
  lemma {:induction false} StripGroup(singles: set<char>, s: string)
    requires GroupMarker !in s
    ensures StripHeaders(GroupFrom(singles, s)) == s
    decreases |s|
  {
    if |s| > 0 {
      if s[0] in singles {
        var k := CodeRun(singles, s);
        var run, rest := s[..k], s[k..];
        assert s == run + rest;
        assert GroupMarker !in run && GroupMarker !in rest;
        var g := GroupFrom(singles, rest);
        assert GroupFrom(singles, s) == Header(k) + (run + g);
        StripHeader(k, run + g);
        StripAppend(run, g);
        StripGroup(singles, rest);
      } else {
        assert GroupMarker !in s[1..];
        StripGroup(singles, s[1..]);
        StripAppend([s[0]], GroupFrom(singles, s[1..]));
        assert s == [s[0]] + s[1..];
      }
    }
  }

  // ---------------------------------------------------------------------
  // Statistics

  /** Dictionary cost counted by the statistics: code, word and three
      characters per entry. */
  function DictCost(d: seq<DictEntry>): (n: int)
    ensures n >= 3 * |d|
    decreases |d|
  {
    if |d| == 0 then 0 else |d[0].code| + |d[0].word| + 3 + DictCost(d[1..])
  }

  /** The source's `calculateStatistics`. */
  function CalculateStatistics(original: string, compressed: string, d: seq<DictEntry>): (st: Statistics)
    ensures st.originalLength == |original| && st.dictionaryEntries == |d|
    ensures st.compressedLength - |compressed| == DictCost(d)
  {
    Statistics(|original|, |compressed| + DictCost(d), |d|)
  }

  lemma {:induction false} DictCostAppend(a: seq<DictEntry>, b: seq<DictEntry>)
    ensures DictCost(a + b) == DictCost(a) + DictCost(b)
    decreases |a|
  {
    if |a| == 0 {
      assert a + b == b;
    } else {
      assert (a + b)[1..] == a[1..] + b;
      DictCostAppend(a[1..], b);
    }
  }

  // ---------------------------------------------------------------------
  // The pipeline

  /** The candidates of one compression: the admitted words, followed,
      when `withPhrases`, by the phrase candidates. */
  function Candidates(cc: CharClasses, tokens: seq<Token>, withPhrases: bool, minWordLength: int,
                      minFrequency: int, minFrequencyFor2Chars: int, maxPhraseTokens: int,
                      minPhraseLength: int): (cs: seq<Candidate>)
  {
    var words := SelectCandidates(AnalyzeWordFrequency(cc, tokens), minWordLength, minFrequency, minFrequencyFor2Chars);
    if withPhrases then words + Tokenizer.FindPhraseCandidates(Some(tokens), maxPhraseTokens, minFrequency, minPhraseLength)
    else words
  }

  datatype Outcome = Outcome(result: CompressionResult, core: Core)

  const EmptyResult: CompressionResult := CompressionResult("", [], Statistics(0, 0, 0))

  /** One compression with the two switches the corrected variants use. */
  function Pipeline(cc: CharClasses, core: Core, withPhrases: bool, singlesOnly: bool,
                    minWordLength: int, minFrequency: int, minFrequencyFor2Chars: int,
                    maxPhraseTokens: int, minPhraseLength: int): (out: Outcome)
  {
    var t := TextToProcess(cc, core);
    if |t| == 0 then Outcome(EmptyResult, core)
    else
      var tokens := Tokenizer.Tokenize(cc, Some(t));
      var cs := Candidates(cc, tokens, withPhrases, minWordLength, minFrequency, minFrequencyFor2Chars,
                           maxPhraseTokens, minPhraseLength);
      var a := AssignCodes(core.gen, cs, singlesOnly);
      var d := CreateDictionary(a.kept);
      var encoded := EncodeText(cc, t, d);
      var grouped := ApplyGroupCoding(encoded, d);
      var final := if core.normalizeToLowercase && !Validation.IsLikelySourceCode(Some(t))
                   then [LowerCaseMarker] + grouped else grouped;
      Outcome(CompressionResult(final, d, CalculateStatistics(t, final, d)), core.(gen := a.gen))
  }

  /** The source's `encodeText`: whole-word substitution, longest word
      first. The `else` branch, a dictionary holding an empty word, is
      unreachable from `Pipeline`; the source's search loop would not
      terminate on such a word. */
  function EncodeText(cc: CharClasses, text: string, d: seq<DictEntry>): (r: string)
    ensures Reversible(d) && CodeFree(CodeMap(d), text) ==> Expand(CodeMap(d), r) == text
    ensures |d| == 0 ==> r == text
  {
    if NonEmptyWords(d) then Encode(cc, true, text, d) else text
  }

  /** The source's `compress(minWordLength, minFrequency,
      minFrequencyFor2Chars, maxPhraseTokens, minPhraseLength)`, as
      written: only words are candidates and the allocator may issue
      pairs. An empty processed text gives the empty result. */
  function Compress(cc: CharClasses, core: Core, minWordLength: int, minFrequency: int,
                    minFrequencyFor2Chars: int, maxPhraseTokens: int, minPhraseLength: int): (out: Outcome)
    ensures |TextToProcess(cc, core)| == 0 ==> out == Outcome(EmptyResult, core)
  {
    Pipeline(cc, core, false, false, minWordLength, minFrequency, minFrequencyFor2Chars, maxPhraseTokens, minPhraseLength)
  }

  /** `compress` with the phrase arguments put to use: the phrase
      candidates follow the word candidates. */
  function CompressWithPhrases(cc: CharClasses, core: Core, minWordLength: int, minFrequency: int,
                               minFrequencyFor2Chars: int, maxPhraseTokens: int, minPhraseLength: int): (out: Outcome)
    ensures |TextToProcess(cc, core)| == 0 ==> out == Outcome(EmptyResult, core)
  {
    Pipeline(cc, core, true, false, minWordLength, minFrequency, minFrequencyFor2Chars, maxPhraseTokens, minPhraseLength)
  }

  /** `compress` with the pair stage of the allocator removed: once the
      one-symbol codes run out, further candidates stay uncoded. */
  function CompressSinglesOnly(cc: CharClasses, core: Core, minWordLength: int, minFrequency: int,
                               minFrequencyFor2Chars: int, maxPhraseTokens: int, minPhraseLength: int): (out: Outcome)
    ensures |TextToProcess(cc, core)| == 0 ==> out == Outcome(EmptyResult, core)
  {
    Pipeline(cc, core, false, true, minWordLength, minFrequency, minFrequencyFor2Chars, maxPhraseTokens, minPhraseLength)
  }

  /** The source's parameterless `compress()`. */
  function CompressDefault(cc: CharClasses, core: Core): (out: Outcome)
    ensures |TextToProcess(cc, core)| == 0 ==> out == Outcome(EmptyResult, core)
  {
    Compress(cc, core, MinWordLength, MinFrequency, MinFrequencyFor2Chars, MaxPhraseTokens, MinPhraseLength)
  }

  // ---------------------------------------------------------------------
  // Decoding

  /** The decoder loop over `s` with lookup `m` and one-symbol codes
      `singles`. Without group headers and with one-symbol codes only, it
      replaces every code symbol by its word and copies everything else. */
  function DecodeFrom(cc: CharClasses, m: map<string, string>, singles: set<char>, s: string): (r: string)
    ensures GroupMarker !in s && SingleLookup(m, singles) ==> r == Expand(m, s)
    decreases |s|
  {
    if |s| == 0 then ""
    else if s[0] == GroupMarker && |s| >= 2 && cc.isDigit(s[1]) then
      var n := s[1] as int - '0' as int;
      var k := if n <= 0 then 0 else if n < |s| - 2 then n else |s| - 2;
      Expand(m, s[2..2 + k]) + DecodeFrom(cc, m, singles, s[2 + k..])
    else if s[0] in singles then ExpandChar(m, s[0]) + DecodeFrom(cc, m, singles, s[1..])
    else if |s| >= 2 && s[..2] in m then m[s[..2]] + DecodeFrom(cc, m, singles, s[2..])
    else [s[0]] + DecodeFrom(cc, m, singles, s[1..])
  }

  /** The source's `decompress`: null text or dictionary returns the text;
      one leading lower-case marker is dropped and no case is restored. */
  function Decompress(cc: CharClasses, compressed: Option<string>, d: Option<seq<DictEntry>>): (r: Option<string>)
    ensures compressed.None? || d.None? ==> r == compressed
    ensures compressed.Some? && d.Some? ==> r.Some?
    ensures compressed.Some? && d.Some? && AllSingle(d.value) && GroupMarker !in compressed.value ==>
              var s := compressed.value;
              r == Some(Expand(CodeMap(d.value), if |s| > 0 && s[0] == LowerCaseMarker then s[1..] else s))
  {
    if compressed.None? || d.None? then compressed
    else
      var s := compressed.value;
      var body := if |s| > 0 && s[0] == LowerCaseMarker then s[1..] else s;
      var r := DecodeFrom(cc, CodeMap(d.value), SingleCodes(d.value), body);
      if AllSingle(d.value) && GroupMarker !in s then
        SingleKeys(d.value);
        assert GroupMarker !in body;
        Some(r)
      else Some(r)
  }
}
