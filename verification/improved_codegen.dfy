/** The code allocator of the boundary-checked codec
    (ImprovedCodeGenerator): 100 primary symbols U+3400..U+3463, then 40
    extended symbols U+3464..U+348B, each issued only when absent from the
    text, then two-symbol pairs of primary symbols. The generator is a
    record of cursors threaded through calls; running out of pairs (the
    source's IllegalStateException) is a `None` code. */
module ImprovedCodeGenerator {
  import opened Wrappers
  import opened Seqs
  import opened Unicode

  const PrimaryCount: nat := 100
  const ExtendedCount: nat := 40

  /** Entry `i` of the primary table. */
  function Primary(i: nat): (c: char)
    requires i < PrimaryCount
    ensures 0x3400 <= c as int < 0x3464 && c as int - 0x3400 == i
  {
    (0x3400 + i) as char
  }

  /** Entry `i` of the extended table. */
  function Extended(i: nat): (c: char)
    requires i < ExtendedCount
    ensures 0x3464 <= c as int < 0x348C && c as int - 0x3464 == i
  {
    (0x3464 + i) as char
  }

  /** The two-symbol code made of primary entries `a` and `b`. */
  function Pair(a: nat, b: nat): (s: string)
    requires a < PrimaryCount && b < PrimaryCount
    ensures |s| == 2 && s[0] == Primary(a) && s[1] == Primary(b)
  {
    [Primary(a), Primary(b)]
  }

  /** The source's `isLikelyCodeChar`: the character lies in the primary
      or the extended range. */
  predicate IsLikelyCodeChar(c: char) {
    ('\U{3400}' <= c <= '\U{3463}') || ('\U{3464}' <= c <= '\U{348B}')
  }

  /** The source's `getAvailableCodeChars`: the 140 single-symbol codes,
      primary table first. */
  function AvailableCodeChars(): (cs: seq<char>)
    ensures |cs| == PrimaryCount + ExtendedCount
    ensures forall i :: 0 <= i < PrimaryCount ==> cs[i] == Primary(i)
    ensures forall i :: 0 <= i < ExtendedCount ==> cs[PrimaryCount + i] == Extended(i)
    ensures forall c :: c in cs <==> IsLikelyCodeChar(c)
    ensures Distinct(cs)
  {
    var cs := seq(PrimaryCount + ExtendedCount, i requires 0 <= i < PrimaryCount + ExtendedCount => (0x3400 + i) as char);
    assert forall c :: IsLikelyCodeChar(c) ==> c in cs by {
      forall c | IsLikelyCodeChar(c) ensures c in cs {
        assert cs[c as int - 0x3400] == c;
      }
    }
    cs
  }

  /** The generator: the text's characters and bigrams, and the cursors
      into the primary table, the extended table and the pair space. */
  datatype Gen = Gen(textChars: set<char>, textBigrams: set<string>,
                     primaryIndex: nat, extendedIndex: nat, bigramIndex1: nat, bigramIndex2: nat)

  /** A fresh generator for `text`. */
  function New(text: string): Gen {
    Gen(CharSet(text), Bigrams(text), 0, 0, 0, 0)
  }

  /** One call's result: the code, `None` for the exception, and the
      updated generator. */
  datatype Step = Step(code: Option<string>, gen: Gen)

  /** The source's `isCodeSafe`: a one-symbol code absent from the text, or
      a two-symbol code that is not a text bigram and neither of whose
      symbols occurs in the text. */
  predicate IsCodeSafe(g: Gen, code: Option<string>)
    ensures IsCodeSafe(g, code) ==>
              code.Some? && (|code.value| == 1 || |code.value| == 2) &&
              forall i :: 0 <= i < |code.value| ==> code.value[i] !in g.textChars
  {
    match code
    case None => false
    case Some(s) =>
      if |s| == 1 then s[0] !in g.textChars
      else if |s| == 2 then s !in g.textBigrams && s[0] !in g.textChars && s[1] !in g.textChars
      else false
  }

  /** A code is safe for a text exactly when it has one or two symbols,
      none of which occurs in the text (a two-symbol code of absent
      symbols cannot be a bigram of the text). */
  lemma CodeSafeMeansAbsent(text: string, s: string)
    ensures IsCodeSafe(New(text), Some(s)) <==>
              (|s| == 1 || |s| == 2) && forall i :: 0 <= i < |s| ==> s[i] !in text
  {
  }

  predicate PairSafe(g: Gen, a: nat, b: nat)
    requires a < PrimaryCount && b < PrimaryCount
  {
    Pair(a, b) !in g.textBigrams && Primary(a) !in g.textChars && Primary(b) !in g.textChars
  }

  /** Every primary entry from the cursor on occurs in the text. */
  ghost predicate PrimaryDone(g: Gen) {
    forall j :: g.primaryIndex <= j < PrimaryCount ==> Primary(j) in g.textChars
  }

  /** Every extended entry from the cursor on occurs in the text. */
  ghost predicate ExtendedDone(g: Gen) {
    forall j :: g.extendedIndex <= j < ExtendedCount ==> Extended(j) in g.textChars
  }

  function Min(a: nat, b: nat): nat { if a < b then a else b }

  /** The pair cursor as a position in the row-major pair order. */
  function PairPos(g: Gen): nat {
    PrimaryCount * Min(g.bigramIndex1, PrimaryCount) + Min(g.bigramIndex2, PrimaryCount)
  }

  /** Where the generator stands in the overall issue order: primary
      positions 0..99, extended 100..139, pairs from 140. */
  function Pos(g: Gen): nat {
    if g.primaryIndex < PrimaryCount then g.primaryIndex
    else if g.extendedIndex < ExtendedCount then PrimaryCount + g.extendedIndex
    else PrimaryCount + ExtendedCount + PairPos(g)
  }

  predicate IsSingleCode(s: string) { |s| == 1 && IsLikelyCodeChar(s[0]) }

  predicate IsPairCode(s: string) {
    |s| == 2 && '\U{3400}' <= s[0] <= '\U{3463}' && '\U{3400}' <= s[1] <= '\U{3463}'
  }

  /** The position of a code in the issue order. */
  function Rank(s: string): int {
    if IsSingleCode(s) then s[0] as int - 0x3400
    else if IsPairCode(s) then PrimaryCount + ExtendedCount + PrimaryCount * (s[0] as int - 0x3400) + (s[1] as int - 0x3400)
    else -1
  }

  /** The first loop of `nextCode`: the next primary entry absent from the
      text, advancing the primary cursor past it. */
  function ScanPrimary(g: Gen): (r: Step)
    ensures r.gen == g.(primaryIndex := r.gen.primaryIndex)
    ensures g.primaryIndex <= r.gen.primaryIndex
    ensures r.code.Some? ==>
              && g.primaryIndex < r.gen.primaryIndex <= PrimaryCount
              && r.code == Some([Primary(r.gen.primaryIndex - 1)])
              && Primary(r.gen.primaryIndex - 1) !in g.textChars
    ensures r.code.None? ==> r.gen.primaryIndex >= PrimaryCount && PrimaryDone(g)
    ensures forall j :: g.primaryIndex <= j < r.gen.primaryIndex - (if r.code.Some? then 1 else 0) && j < PrimaryCount
              ==> Primary(j) in g.textChars
    decreases PrimaryCount - Min(g.primaryIndex, PrimaryCount)
  {
    if g.primaryIndex >= PrimaryCount then Step(None, g)
    else
      var c := Primary(g.primaryIndex);
      var next := g.(primaryIndex := g.primaryIndex + 1);
      if c !in g.textChars then Step(Some([c]), next) else ScanPrimary(next)
  }

  /** The second loop of `nextCode`, over the extended table. */
  function ScanExtended(g: Gen): (r: Step)
    ensures r.gen == g.(extendedIndex := r.gen.extendedIndex)
    ensures g.extendedIndex <= r.gen.extendedIndex
    ensures r.code.Some? ==>
              && g.extendedIndex < r.gen.extendedIndex <= ExtendedCount
              && r.code == Some([Extended(r.gen.extendedIndex - 1)])
              && Extended(r.gen.extendedIndex - 1) !in g.textChars
    ensures r.code.None? ==> r.gen.extendedIndex >= ExtendedCount && ExtendedDone(g)
    ensures forall j :: g.extendedIndex <= j < r.gen.extendedIndex - (if r.code.Some? then 1 else 0) && j < ExtendedCount
              ==> Extended(j) in g.textChars
    decreases ExtendedCount - Min(g.extendedIndex, ExtendedCount)
  {
    if g.extendedIndex >= ExtendedCount then Step(None, g)
    else
      var c := Extended(g.extendedIndex);
      var next := g.(extendedIndex := g.extendedIndex + 1);
      if c !in g.textChars then Step(Some([c]), next) else ScanExtended(next)
  }

  /** No pair at row-major position `pos` or later is safe. */
  predicate NoSafePairFrom(g: Gen, pos: int) {
    forall a, b :: 0 <= a < PrimaryCount && 0 <= b < PrimaryCount && PrimaryCount * a + b >= pos ==> !PairSafe(g, a, b)
  }

  /** Whether a pair is safe depends only on the text. */
  lemma NoSafePairSameText(g: Gen, h: Gen, pos: int)
    requires h.textChars == g.textChars && h.textBigrams == g.textBigrams
    ensures NoSafePairFrom(h, pos) ==> NoSafePairFrom(g, pos)
  {
    if NoSafePairFrom(h, pos) {
      forall a, b | 0 <= a < PrimaryCount && 0 <= b < PrimaryCount && PrimaryCount * a + b >= pos
        ensures !PairSafe(g, a, b)
      {
        assert !PairSafe(h, a, b);
      }
    }
  }

  /** Passing over an unsafe pair. */
  lemma NoSafePairStep(g: Gen, h: Gen, i: nat, j: nat)
    requires h.textChars == g.textChars && h.textBigrams == g.textBigrams
    requires i < PrimaryCount && j < PrimaryCount && !PairSafe(g, i, j)
    ensures NoSafePairFrom(h, PrimaryCount * i + j + 1) ==> NoSafePairFrom(g, PrimaryCount * i + j)
  {
    if NoSafePairFrom(h, PrimaryCount * i + j + 1) {
      forall a, b | 0 <= a < PrimaryCount && 0 <= b < PrimaryCount && PrimaryCount * a + b >= PrimaryCount * i + j
        ensures !PairSafe(g, a, b)
      {
        if PrimaryCount * a + b == PrimaryCount * i + j {
          assert a == i && b == j;
        } else {
          assert !PairSafe(h, a, b);
        }
      }
    }
  }

  /** The source's `generateBigramCode`: pairs of primary entries in
      row-major order from the pair cursor; the first pair that is not a
      text bigram and whose symbols are both absent from the text. `None`
      (the exception) means no such pair remains at or after the cursor. */
  function GenerateBigramCode(g: Gen): (r: Step)
    ensures r.gen == g.(bigramIndex1 := r.gen.bigramIndex1, bigramIndex2 := r.gen.bigramIndex2)
    ensures PairPos(g) <= PairPos(r.gen)
    ensures r.code.Some? ==>
              && r.gen.bigramIndex1 < PrimaryCount && 0 < r.gen.bigramIndex2 <= PrimaryCount
              && r.code == Some(Pair(r.gen.bigramIndex1, r.gen.bigramIndex2 - 1))
              && PairSafe(g, r.gen.bigramIndex1, r.gen.bigramIndex2 - 1)
              && PairPos(g) <= PrimaryCount * r.gen.bigramIndex1 + r.gen.bigramIndex2 - 1 < PairPos(r.gen)
    ensures r.code.None? ==> NoSafePairFrom(g, PairPos(g))
    decreases PrimaryCount - Min(g.bigramIndex1, PrimaryCount), PrimaryCount - Min(g.bigramIndex2, PrimaryCount)
  {
    if g.bigramIndex1 >= PrimaryCount then Step(None, g)
    else if g.bigramIndex2 >= PrimaryCount then
      var next := g.(bigramIndex1 := g.bigramIndex1 + 1, bigramIndex2 := 0);
      assert PairPos(next) == PairPos(g);
      NoSafePairSameText(g, next, PairPos(g));
      GenerateBigramCode(next)
    else
      var next := g.(bigramIndex2 := g.bigramIndex2 + 1);
      assert PairPos(next) == PairPos(g) + 1;
      if PairSafe(g, g.bigramIndex1, g.bigramIndex2) then Step(Some(Pair(g.bigramIndex1, g.bigramIndex2)), next)
      else
        NoSafePairStep(g, next, g.bigramIndex1, g.bigramIndex2);
        GenerateBigramCode(next)
  }

  /** The source's `nextCode`: a primary entry absent from the text if one
      remains, else an extended one, else a pair. Every code is safe, and
      the position in the issue order only moves forward, past each issued
      code; the primary entries the cursor passes are skipped only when
      present in the text. */
  function NextCode(g: Gen): (r: Step)
    ensures r.gen.textChars == g.textChars && r.gen.textBigrams == g.textBigrams
    ensures r.code.Some? ==> IsCodeSafe(g, r.code)
    ensures r.code.Some? ==> IsSingleCode(r.code.value) || IsPairCode(r.code.value)
    ensures Pos(g) <= Pos(r.gen)
    ensures r.code.Some? ==> Pos(g) <= Rank(r.code.value) < Pos(r.gen)
    ensures g.primaryIndex <= r.gen.primaryIndex
    ensures forall j :: g.primaryIndex <= j < r.gen.primaryIndex && j < PrimaryCount && Primary(j) !in g.textChars
              ==> r.code == Some([Primary(j)])
  {
    var p := ScanPrimary(g);
    if p.code.Some? then p
    else
      var e := ScanExtended(p.gen);
      if e.code.Some? then e
      else GenerateBigramCode(e.gen)
  }

  /** Table order: a primary code while absent primary entries remain,
      then an extended one, and pairs only after both tables. */
  lemma NextCodeOrder(g: Gen)
    ensures var r := NextCode(g);
            && (!PrimaryDone(g) ==> r.code.Some? && |r.code.value| == 1 && '\U{3400}' <= r.code.value[0] <= '\U{3463}')
            && (PrimaryDone(g) && !ExtendedDone(g) ==>
                  r.code.Some? && |r.code.value| == 1 && '\U{3464}' <= r.code.value[0] <= '\U{348B}')
            && (r.code.Some? && IsPairCode(r.code.value) ==> PrimaryDone(g) && ExtendedDone(g))
  {
    var p := ScanPrimary(g);
    if p.code.None? {
      var e := ScanExtended(p.gen);
      assert ExtendedDone(p.gen) <==> ExtendedDone(g);
    }
  }

  /** The exception is thrown only when no safe code is left: every table
      entry from the cursors on occurs in the text and no pair at or after
      the pair cursor is safe. */
  lemma NextCodeExhausted(g: Gen)
    requires NextCode(g).code.None?
    ensures PrimaryDone(g) && ExtendedDone(g)
    ensures NoSafePairFrom(g, PairPos(g))
  {
    var p := ScanPrimary(g);
    var e := ScanExtended(p.gen);
    assert ExtendedDone(p.gen) <==> ExtendedDone(g);
    assert PairPos(e.gen) == PairPos(g);
    NoSafePairSameText(g, e.gen, PairPos(g));
  }

  /** `n` successive calls of the allocator `next`, each from the
      generator the previous call left. */
  function Iterate(next: Gen -> Step, g: Gen, n: nat): (steps: seq<Step>)
    ensures |steps| == n
    decreases n
  {
    if n == 0 then [] else var s := next(g); [s] + Iterate(next, s.gen, n - 1)
  }

  /** The generator after `k` calls of `next`. */
  function Advance(next: Gen -> Step, g: Gen, k: nat): Gen
    decreases k
  {
    if k == 0 then g else Advance(next, next(g).gen, k - 1)
  }

  /** Call `k` of a run is the allocator applied to the generator the
      first `k` calls left. */
  lemma {:induction false} IterateStep(next: Gen -> Step, g: Gen, n: nat, k: nat)
    requires k < n
    ensures Iterate(next, g, n)[k] == next(Advance(next, g, k))
    decreases k
  {
    if k > 0 {
      var s := next(g);
      ConsIndex(s, Iterate(next, s.gen, n - 1), k);
      IterateStep(next, s.gen, n - 1, k - 1);
    }
  }

  lemma {:induction false} AdvanceSplit(next: Gen -> Step, g: Gen, k: nat)
    ensures Advance(next, g, k + 1) == next(Advance(next, g, k)).gen
    decreases k
  {
    if k > 0 {
      AdvanceSplit(next, next(g).gen, k - 1);
    }
  }

  /** `n` successive calls from `g`. */
  function Run(g: Gen, n: nat): (steps: seq<Step>)
    ensures |steps| == n
  {
    Iterate(NextCode, g, n)
  }

  /** The generator after `k` of the calls of `Run(g, n)`. */
  function After(g: Gen, k: nat): Gen {
    Advance(NextCode, g, k)
  }

  /** Every issued code of `steps` sits at issue position `lo` or later. */
  predicate StepsAbove(steps: seq<Step>, lo: int) {
    forall i :: 0 <= i < |steps| && steps[i].code.Some? ==> lo <= Rank(steps[i].code.value)
  }

  /** Issue positions strictly increase along the issued codes of `steps`. */
  predicate StepsAscending(steps: seq<Step>) {
    forall i, j :: 0 <= i < j < |steps| && steps[i].code.Some? && steps[j].code.Some? ==>
      Rank(steps[i].code.value) < Rank(steps[j].code.value)
  }

  lemma StepsCons(s: Step, rest: seq<Step>, lo: int, mid: int)
    requires StepsAbove(rest, mid) && StepsAscending(rest) && lo <= mid
    requires s.code.Some? ==> lo <= Rank(s.code.value) < mid
    ensures StepsAbove([s] + rest, lo) && StepsAscending([s] + rest)
  {
    var l := [s] + rest;
    forall i | 0 < i < |l| ensures l[i] == rest[i - 1] { }
  }

  /** The codes issued by successive calls have strictly increasing
      positions in the issue order, all at or after the starting position:
      one generator never issues the same code twice. */
  lemma {:induction false} RunRanksIncrease(g: Gen, n: nat)
    ensures StepsAbove(Run(g, n), Pos(g)) && StepsAscending(Run(g, n))
    decreases n
  {
    if n > 0 {
      var s := NextCode(g);
      assert Run(g, n) == [s] + Run(s.gen, n - 1);
      RunRanksIncrease(s.gen, n - 1);
      StepsCons(s, Run(s.gen, n - 1), Pos(g), Pos(s.gen));
    }
  }

  lemma RunCodesDistinct(g: Gen, n: nat)
    ensures forall i, j :: 0 <= i < j < n && Run(g, n)[i].code.Some? && Run(g, n)[j].code.Some? ==>
              Run(g, n)[i].code != Run(g, n)[j].code
  {
    RunRanksIncrease(g, n);
  }

  /** Every call keeps the text's characters and bigrams. */
  lemma {:induction false} AfterKeepsText(g: Gen, k: nat)
    ensures After(g, k).textChars == g.textChars && After(g, k).textBigrams == g.textBigrams
    decreases k
  {
    if k > 0 {
      assert After(g, k) == After(NextCode(g).gen, k - 1);
      AfterKeepsText(NextCode(g).gen, k - 1);
    }
  }

  lemma RunStep(g: Gen, n: nat, k: nat)
    requires k < n
    ensures Run(g, n)[k] == NextCode(After(g, k))
  {
    IterateStep(NextCode, g, n, k);
  }

  /** `code` is among the first `k` codes of `steps`. */
  ghost predicate IssuedBefore(steps: seq<Step>, k: nat, code: string) {
    exists i :: 0 <= i < k && i < |steps| && steps[i].code == Some(code)
  }

  /** A primary entry absent from the text that the cursor has passed
      after `k` calls from `g0` (whose primary cursor starts at 0) was
      issued by one of them. */
  lemma {:induction false} PassedPrimaryIssued(g0: Gen, n: nat, k: nat, p: nat)
    requires k <= n && g0.primaryIndex == 0
    requires p < After(g0, k).primaryIndex && p < PrimaryCount && Primary(p) !in g0.textChars
    ensures IssuedBefore(Run(g0, n), k, [Primary(p)])
    decreases k
  {
    var g := After(g0, k - 1);
    AfterSplit(g0, k - 1);
    if p < g.primaryIndex {
      PassedPrimaryIssued(g0, n, k - 1, p);
      var i :| 0 <= i < k - 1 && i < |Run(g0, n)| && Run(g0, n)[i].code == Some([Primary(p)]);
    } else {
      AfterKeepsText(g0, k - 1);
      RunStep(g0, n, k - 1);
      assert Run(g0, n)[k - 1].code == Some([Primary(p)]);
    }
  }

  lemma AfterSplit(g: Gen, k: nat)
    ensures After(g, k + 1) == NextCode(After(g, k)).gen
  {
    AdvanceSplit(NextCode, g, k);
  }

  /** The pair stage reuses issued symbols: when a fresh generator issues a
      two-symbol code, both of its symbols were issued earlier as
      one-symbol codes by the same generator. A decoder that tries
      one-symbol codes first therefore never sees a two-symbol code. */
  lemma PairReusesSingles(text: string, n: nat, j: nat)
    requires j < n
    requires Run(New(text), n)[j].code.Some? && IsPairCode(Run(New(text), n)[j].code.value)
    ensures var v := Run(New(text), n)[j].code.value;
            IssuedBefore(Run(New(text), n), j, [v[0]]) && IssuedBefore(Run(New(text), n), j, [v[1]])
  {
    var g0 := New(text);
    var g := After(g0, j);
    var v := Run(g0, n)[j].code.value;
    RunStep(g0, n, j);
    AfterKeepsText(g0, j);
    // the pair stage starts only after the primary loop has run out
    NextCodeOrder(g);
    var a := v[0] as int - 0x3400;
    var b := v[1] as int - 0x3400;
    assert Primary(a) == v[0] && Primary(b) == v[1];
    assert v[0] !in text && v[1] !in text;
    PassedPrimaryIssued(g0, n, j, a);
    PassedPrimaryIssued(g0, n, j, b);
  }

  /** The generator with the pair stage removed: once both tables are
      used up it reports exhaustion instead of issuing pairs, whose symbols
      would already be in use as one-symbol codes. */
  function NextSingleCode(g: Gen): (r: Step)
    ensures r.gen.textChars == g.textChars && r.gen.textBigrams == g.textBigrams
    ensures r.code.Some? ==> IsCodeSafe(g, r.code) && IsSingleCode(r.code.value)
    ensures Pos(g) <= Pos(r.gen)
    ensures r.code.Some? ==> Pos(g) <= Rank(r.code.value) < Pos(r.gen)
    ensures r.code == NextCode(g).code || (r.code.None? && IsPairCode(NextCode(g).code.value))
  {
    var p := ScanPrimary(g);
    if p.code.Some? then p
    else
      var e := ScanExtended(p.gen);
      if e.code.Some? then e
      else
        var b := GenerateBigramCode(e.gen);
        if b.code.Some? then Step(None, e.gen) else b
  }

  /** `n` successive calls of the pair-free generator. */
  function RunSingles(g: Gen, n: nat): (steps: seq<Step>)
    ensures |steps| == n
  {
    Iterate(NextSingleCode, g, n)
  }

  /** Every issued code of `steps` is a one-symbol code outside `chars`. */
  predicate StepsSingleOutside(steps: seq<Step>, chars: set<char>) {
    forall i :: 0 <= i < |steps| && steps[i].code.Some? ==>
      IsSingleCode(steps[i].code.value) && steps[i].code.value[0] !in chars
  }

  lemma SingleOutsideCons(s: Step, rest: seq<Step>, chars: set<char>)
    requires StepsSingleOutside(rest, chars)
    requires s.code.Some? ==> IsSingleCode(s.code.value) && s.code.value[0] !in chars
    ensures StepsSingleOutside([s] + rest, chars)
  {
    var l := [s] + rest;
    forall i | 0 < i < |l| ensures l[i] == rest[i - 1] { }
  }

  /** The pair-free generator issues one-symbol codes absent from the
      text, at strictly increasing issue positions, so no issued code is
      made of other issued codes. */
  lemma {:induction false} RunSinglesIssuesSingles(g: Gen, n: nat)
    ensures var steps := RunSingles(g, n);
            StepsSingleOutside(steps, g.textChars) && StepsAbove(steps, Pos(g)) && StepsAscending(steps)
    decreases n
  {
    if n > 0 {
      var s := NextSingleCode(g);
      var rest := RunSingles(s.gen, n - 1);
      assert RunSingles(g, n) == [s] + rest;
      RunSinglesIssuesSingles(s.gen, n - 1);
      StepsCons(s, rest, Pos(g), Pos(s.gen));
      SingleOutsideCons(s, rest, g.textChars);
    }
  }

  /** The source's `normalizeText`: each character lowercased, except
      characters of the code ranges when `preserveCodeCase` is set; `None`
      for a null text. */
  function NormalizeText(cc: CharClasses, text: Option<string>, preserveCodeCase: bool): (r: Option<string>)
    ensures r.None? <==> text.None?
    ensures text.Some? ==> |r.value| == |text.value|
    ensures text.Some? ==> forall i :: 0 <= i < |text.value| ==>
              r.value[i] == if preserveCodeCase && IsLikelyCodeChar(text.value[i]) then text.value[i]
                            else cc.toLowerCase(text.value[i])
  {
    match text
    case None => None
    case Some(t) =>
      Some(seq(|t|, i requires 0 <= i < |t| =>
        if preserveCodeCase && IsLikelyCodeChar(t[i]) then t[i] else cc.toLowerCase(t[i])))
  }

  /** With standard case mapping, normalisation leaves no ASCII capital
      and keeps every code symbol when asked to. */
  lemma NormalizeLowersAscii(cc: CharClasses, text: string, preserveCodeCase: bool)
    requires WellFormed(cc)
    ensures var r := NormalizeText(cc, Some(text), preserveCodeCase).value;
            && (forall i :: 0 <= i < |r| ==> !('A' <= r[i] <= 'Z') || !('A' <= text[i] <= 'Z'))
            && (preserveCodeCase ==> forall i :: 0 <= i < |r| && IsLikelyCodeChar(text[i]) ==> r[i] == text[i])
  {
  }

  /** The source's `calculateBenefit`: the characters saved by coding
      `frequency` occurrences of `word` as `code`, less the dictionary
      line; 0 when either is null. */
  function CalculateBenefit(word: Option<string>, frequency: int, code: Option<string>): (b: int)
    ensures word.None? || code.None? ==> b == 0
  {
    if word.None? || code.None? then 0
    else
      var w := |word.value|;
      var c := |code.value|;
      w * frequency - (c * frequency + c + w + 3)
  }

  /** The benefit is the saving per occurrence times the frequency, less
      the dictionary line: it is positive exactly when the occurrences
      save more than the line costs, and it grows with the frequency when
      the code is shorter than the word. */
  lemma BenefitMeaning(word: string, code: string, f1: int, f2: int)
    ensures CalculateBenefit(Some(word), f1, Some(code)) > 0 <==> (|word| - |code|) * f1 > |code| + |word| + 3
    ensures |code| < |word| && f1 < f2 ==>
              CalculateBenefit(Some(word), f1, Some(code)) < CalculateBenefit(Some(word), f2, Some(code))
  {
    var d := |word| - |code|;
    assert |word| * f1 - |code| * f1 == d * f1;
    assert |word| * f2 - |code| * f2 == d * f2;
    if d > 0 && f1 < f2 {
      assert d * f2 - d * f1 == d * (f2 - f1);
    }
  }
}
