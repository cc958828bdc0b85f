/** The brute-force phrase counter kept as the benchmark baseline
    (Benchmark.findPhrasesOld), and its agreement with the hash-based
    finder on tokenizer output. */
module Benchmark {
  import opened Wrappers
  import opened Seqs
  import opened Unicode
  import opened Model
  import Tokenizer
  import PhraseFinder

  /** The windows starting at token `i`, of `len` tokens and more, up to
      `maxPhraseTokens` and the end of the list; windows shorter than
      `minPhraseLength` characters are skipped. */
  function RowFrom(vs: seq<string>, i: nat, len: nat, maxPhraseTokens: int, minPhraseLength: int): (r: seq<string>)
    requires 0 < len
    decreases |vs| + 1 - len
  {
    if len > maxPhraseTokens || i + len > |vs| then []
    else
      var w := PhraseFinder.Window(vs, i, len);
      (if |w| < minPhraseLength then [] else [w]) + RowFrom(vs, i, len + 1, maxPhraseTokens, minPhraseLength)
  }

  /** The counted windows of the nested loops for start positions below
      `k`, lengths from 2 up, in loop order. */
  function OldRows(vs: seq<string>, k: nat, maxPhraseTokens: int, minPhraseLength: int): seq<string>
    decreases k
  {
    if k == 0 then []
    else OldRows(vs, k - 1, maxPhraseTokens, minPhraseLength) + RowFrom(vs, k - 1, 2, maxPhraseTokens, minPhraseLength)
  }

  /** `w` is the window of `l` tokens at `i` that the brute-force loops
      count: 2..maxPhraseTokens consecutive tokens rendered by
      concatenation, at least `minPhraseLength` characters long. */
  ghost predicate OldWindowAt(vs: seq<string>, i: int, l: int, w: string, maxPhraseTokens: int, minPhraseLength: int) {
    0 <= i && 2 <= l <= maxPhraseTokens && i + l <= |vs|
    && PhraseFinder.Window(vs, i, l) == w && |w| >= minPhraseLength
  }

  /** A window of the brute-force loops, at any position. */
  ghost predicate IsOldWindow(vs: seq<string>, w: string, maxPhraseTokens: int, minPhraseLength: int) {
    exists i, l :: OldWindowAt(vs, i, l, w, maxPhraseTokens, minPhraseLength)
  }

  lemma {:induction false} RowFromMembers(vs: seq<string>, i: nat, len: nat, maxPhraseTokens: int,
                                          minPhraseLength: int, w: string)
    requires 2 <= len
    ensures w in RowFrom(vs, i, len, maxPhraseTokens, minPhraseLength) <==>
              exists l :: len <= l && OldWindowAt(vs, i, l, w, maxPhraseTokens, minPhraseLength)
    decreases |vs| + 1 - len
  {
    if !(len > maxPhraseTokens || i + len > |vs|) {
      var x := PhraseFinder.Window(vs, i, len);
      var head: seq<string> := if |x| < minPhraseLength then [] else [x];
      var rest := RowFrom(vs, i, len + 1, maxPhraseTokens, minPhraseLength);
      assert RowFrom(vs, i, len, maxPhraseTokens, minPhraseLength) == head + rest;
      RowFromMembers(vs, i, len + 1, maxPhraseTokens, minPhraseLength, w);
      if exists l :: len <= l && OldWindowAt(vs, i, l, w, maxPhraseTokens, minPhraseLength) {
        var l :| len <= l && OldWindowAt(vs, i, l, w, maxPhraseTokens, minPhraseLength);
        if l == len {
          assert w in head;
        } else {
          assert w in rest;
        }
      }
      if w in head {
        assert OldWindowAt(vs, i, len, w, maxPhraseTokens, minPhraseLength);
      }
    }
  }

  lemma {:induction false} OldRowsMembers(vs: seq<string>, k: nat, maxPhraseTokens: int,
                                          minPhraseLength: int, w: string)
    ensures w in OldRows(vs, k, maxPhraseTokens, minPhraseLength) <==>
              exists i, l :: i < k && OldWindowAt(vs, i, l, w, maxPhraseTokens, minPhraseLength)
    decreases k
  {
    if k > 0 {
      var prev := OldRows(vs, k - 1, maxPhraseTokens, minPhraseLength);
      var row := RowFrom(vs, k - 1, 2, maxPhraseTokens, minPhraseLength);
      assert OldRows(vs, k, maxPhraseTokens, minPhraseLength) == prev + row;
      OldRowsMembers(vs, k - 1, maxPhraseTokens, minPhraseLength, w);
      RowFromMembers(vs, k - 1, 2, maxPhraseTokens, minPhraseLength, w);
      if exists i, l :: i < k && OldWindowAt(vs, i, l, w, maxPhraseTokens, minPhraseLength) {
        var i, l :| i < k && OldWindowAt(vs, i, l, w, maxPhraseTokens, minPhraseLength);
        if i < k - 1 {
          assert w in prev;
        } else {
          assert w in row;
        }
      }
    }
  }

  /** Every window the nested loops count, over every start position: each
      is a run of 2..maxPhraseTokens tokens long enough to be kept. */
  function OldWindows(vs: seq<string>, maxPhraseTokens: int, minPhraseLength: int): (ws: seq<string>)
    ensures forall w :: w in ws <==> IsOldWindow(vs, w, maxPhraseTokens, minPhraseLength)
  {
    var ws := OldRows(vs, |vs|, maxPhraseTokens, minPhraseLength);
    assert forall w :: w in ws <==> IsOldWindow(vs, w, maxPhraseTokens, minPhraseLength) by {
      forall w ensures w in ws <==> IsOldWindow(vs, w, maxPhraseTokens, minPhraseLength) {
        OldRowsMembers(vs, |vs|, maxPhraseTokens, minPhraseLength, w);
      }
    }
    ws
  }

  /** One candidate per distinct phrase of `ps` whose count in `all`
      reaches `minFrequency`, carrying that count. */
  function Frequent(ps: seq<string>, all: seq<string>, minFrequency: int): (r: seq<Candidate>)
    ensures forall c :: c in r <==>
              c.code.None? && c.text in ps && c.frequency == Count(all, c.text) && c.frequency >= minFrequency
    decreases |ps|
  {
    if |ps| == 0 then []
    else
      var init := ps[..|ps| - 1];
      var p := ps[|ps| - 1];
      assert ps == init + [p];
      var prev := Frequent(init, all, minFrequency);
      if Count(all, p) >= minFrequency then prev + [Candidate(p, Count(all, p), None)] else prev
  }

  /** The source's `findPhrasesOld`: every counted window with its number
      of occurrences, kept when that number reaches `minFrequency`, ranked
      by length times frequency. */
  function FindPhrasesOld(tokens: seq<Token>, maxPhraseTokens: int, minFrequency: int,
                          minPhraseLength: int): (r: seq<Candidate>)
    ensures SortedDesc(r, PhraseFinder.Score)
    ensures forall c :: c in r <==>
              && c.code.None?
              && IsOldWindow(Values(tokens), c.text, maxPhraseTokens, minPhraseLength)
              && c.frequency == Count(OldWindows(Values(tokens), maxPhraseTokens, minPhraseLength), c.text)
              && c.frequency >= minFrequency
  {
    var all := OldWindows(Values(tokens), maxPhraseTokens, minPhraseLength);
    var ps := Dedup(all);
    DedupMembers(all);
    var cands := Frequent(ps, all, minFrequency);
    SortDescMembers(cands, PhraseFinder.Score);
    SortDesc(cands, PhraseFinder.Score)
  }

  // ---------------------------------------------------------------------
  // Agreement with the hash-based finder. When the token values are an
  // alternating split (as the tokenizer produces), a window's number of
  // tokens is recoverable from its text (it is the number of maximal runs
  // in it), so windows of different lengths never coincide and the single
  // map of the brute-force loops holds, for each phrase, exactly the
  // per-length count of the hash-based finder.

  /** The number of maximal single-class runs in `w`. */
  function RunCount(cc: CharClasses, w: string): nat {
    |Tokenizer.TokenizeFrom(cc, w, 0)|
  }

  lemma {:induction false} AlternatingPrefix(cc: CharClasses, vs: seq<string>, m: nat)
    requires Tokenizer.Alternating(cc, vs) && m <= |vs|
    ensures Tokenizer.Alternating(cc, vs[..m])
    decreases m
  {
    if m > 0 {
      var t := vs[..m];
      Tokenizer.AlternatingTail(cc, vs);
      AlternatingPrefix(cc, vs[1..], m - 1);
      assert t[1..] == vs[1..][..m - 1];
      assert t[0] == vs[0];
      if m > 1 {
        assert t[1] == vs[1];
      }
    }
  }

  lemma {:induction false} AlternatingSuffix(cc: CharClasses, vs: seq<string>, a: nat)
    requires Tokenizer.Alternating(cc, vs) && a <= |vs|
    ensures Tokenizer.Alternating(cc, vs[a..])
    decreases a
  {
    if a > 0 {
      Tokenizer.AlternatingTail(cc, vs);
      AlternatingSuffix(cc, vs[1..], a - 1);
      assert vs[1..][a - 1..] == vs[a..];
    }
  }

  /** A window of `l` tokens of an alternating split has `l` runs. */
  lemma WindowRuns(cc: CharClasses, vs: seq<string>, i: nat, l: nat)
    requires Tokenizer.Alternating(cc, vs) && i + l <= |vs|
    ensures RunCount(cc, PhraseFinder.Window(vs, i, l)) == l
  {
    AlternatingSuffix(cc, vs, i);
    AlternatingPrefix(cc, vs[i..], l);
    assert vs[i..][..l] == vs[i..i + l];
    Tokenizer.TokenizationUnique(cc, vs[i..i + l], PhraseFinder.Window(vs, i, l), 0);
  }

  /** Every window of `vs` has as many runs as it has tokens. */
  ghost predicate RunsAreTokens(cc: CharClasses, vs: seq<string>) {
    forall i: nat, l: nat :: i + l <= |vs| ==> RunCount(cc, PhraseFinder.Window(vs, i, l)) == l
  }

  lemma AlternatingRunsAreTokens(cc: CharClasses, vs: seq<string>)
    requires Tokenizer.Alternating(cc, vs)
    ensures RunsAreTokens(cc, vs)
  {
    forall i: nat, l: nat | i + l <= |vs| ensures RunCount(cc, PhraseFinder.Window(vs, i, l)) == l {
      WindowRuns(cc, vs, i, l);
    }
  }

  /** `w` is the window of `l` tokens at position `i`. */
  predicate Hit(vs: seq<string>, l: nat, w: string, i: nat) {
    i + l <= |vs| && PhraseFinder.Window(vs, i, l) == w
  }

  /** Number of positions below `k` where `w` is the window of `l` tokens. */
  function Matches(vs: seq<string>, l: nat, w: string, k: nat): nat
    decreases k
  {
    if k == 0 then 0 else Matches(vs, l, w, k - 1) + (if Hit(vs, l, w, k - 1) then 1 else 0)
  }

  /** `w` is counted by the row at `i` from length `len` on: its own
      number of runs is in range and it is the window of that many tokens
      at `i`. */
  ghost predicate InRow(cc: CharClasses, vs: seq<string>, i: nat, len: nat, maxPhraseTokens: int,
                        minPhraseLength: int, w: string) {
    len <= RunCount(cc, w) <= maxPhraseTokens && |w| >= minPhraseLength && Hit(vs, RunCount(cc, w), w, i)
  }

  /** A row counts `w` once exactly when `w` is the row's window of
      `RunCount(w)` tokens and that length is in range. */
  lemma {:induction false} RowCount(cc: CharClasses, vs: seq<string>, i: nat, len: nat, maxPhraseTokens: int,
                                    minPhraseLength: int, w: string)
    requires RunsAreTokens(cc, vs) && 0 < len
    ensures Count(RowFrom(vs, i, len, maxPhraseTokens, minPhraseLength), w) ==
              if InRow(cc, vs, i, len, maxPhraseTokens, minPhraseLength, w) then 1 else 0
    decreases |vs| + 1 - len
  {
    var l := RunCount(cc, w);
    if len > maxPhraseTokens || i + len > |vs| {
      assert RowFrom(vs, i, len, maxPhraseTokens, minPhraseLength) == [];
      assert !InRow(cc, vs, i, len, maxPhraseTokens, minPhraseLength, w);
    } else {
      var x := PhraseFinder.Window(vs, i, len);
      var head: seq<string> := if |x| < minPhraseLength then [] else [x];
      var rest := RowFrom(vs, i, len + 1, maxPhraseTokens, minPhraseLength);
      assert RowFrom(vs, i, len, maxPhraseTokens, minPhraseLength) == head + rest;
      CountAppend(head, rest, w);
      RowCount(cc, vs, i, len + 1, maxPhraseTokens, minPhraseLength, w);
      RowHeadCount(x, w, minPhraseLength);
      RowStep(cc, vs, i, len, maxPhraseTokens, minPhraseLength, w);
    }
  }

  lemma RowHeadCount(x: string, w: string, minPhraseLength: int)
    ensures Count(if |x| < minPhraseLength then [] else [x], w) ==
              if x == w && |w| >= minPhraseLength then 1 else 0
  {
    if |x| >= minPhraseLength {
      CountSingle(x, w);
    }
  }

  /** Membership in the row from `len` splits into the window of `len`
      tokens and membership in the row from `len + 1`. */
  lemma RowStep(cc: CharClasses, vs: seq<string>, i: nat, len: nat, maxPhraseTokens: int,
                minPhraseLength: int, w: string)
    requires 0 < len <= maxPhraseTokens && i + len <= |vs|
    requires RunCount(cc, PhraseFinder.Window(vs, i, len)) == len
    ensures InRow(cc, vs, i, len, maxPhraseTokens, minPhraseLength, w) <==>
              (PhraseFinder.Window(vs, i, len) == w && |w| >= minPhraseLength)
              || InRow(cc, vs, i, len + 1, maxPhraseTokens, minPhraseLength, w)
    ensures !(PhraseFinder.Window(vs, i, len) == w && InRow(cc, vs, i, len + 1, maxPhraseTokens, minPhraseLength, w))
  {
  }

  /** The condition under which the brute-force loops count `w` at all. */
  ghost predicate Counted(cc: CharClasses, w: string, maxPhraseTokens: int, minPhraseLength: int) {
    2 <= RunCount(cc, w) <= maxPhraseTokens && |w| >= minPhraseLength
  }

  lemma {:induction false} OldRowsCount(cc: CharClasses, vs: seq<string>, k: nat, maxPhraseTokens: int,
                                        minPhraseLength: int, w: string)
    requires RunsAreTokens(cc, vs)
    ensures Count(OldRows(vs, k, maxPhraseTokens, minPhraseLength), w) ==
              if Counted(cc, w, maxPhraseTokens, minPhraseLength) then Matches(vs, RunCount(cc, w), w, k) else 0
    decreases k
  {
    if k > 0 {
      var l := RunCount(cc, w);
      var prev := OldRows(vs, k - 1, maxPhraseTokens, minPhraseLength);
      var row := RowFrom(vs, k - 1, 2, maxPhraseTokens, minPhraseLength);
      assert OldRows(vs, k, maxPhraseTokens, minPhraseLength) == prev + row;
      OldRowsCount(cc, vs, k - 1, maxPhraseTokens, minPhraseLength, w);
      RowCount(cc, vs, k - 1, 2, maxPhraseTokens, minPhraseLength, w);
      CountAppend(prev, row, w);
      assert Matches(vs, l, w, k) == Matches(vs, l, w, k - 1) + (if Hit(vs, l, w, k - 1) then 1 else 0);
    }
  }

  lemma {:induction false} WindowsPrefixCount(vs: seq<string>, l: nat, w: string, k: nat)
    requires 0 < l <= |vs| && k <= |vs| - l + 1
    ensures Count(PhraseFinder.Windows(vs, l)[..k], w) == Matches(vs, l, w, k)
    decreases k
  {
    var ws := PhraseFinder.Windows(vs, l);
    if k > 0 {
      WindowsPrefixCount(vs, l, w, k - 1);
      CountPrefix(ws, k, w);
      assert ws[k - 1] == PhraseFinder.Window(vs, k - 1, l);
    }
  }

  lemma {:induction false} MatchesPastEnd(vs: seq<string>, l: nat, w: string, k: nat)
    requires |vs| + 1 <= k + l
    ensures Matches(vs, l, w, k) == Matches(vs, l, w, if l <= |vs| then |vs| - l + 1 else 0)
    decreases k
  {
    var stop := if l <= |vs| then |vs| - l + 1 else 0;
    if k > stop {
      MatchesPastEnd(vs, l, w, k - 1);
    }
  }

  /** The number of occurrences the hash-based finder reports for `w`
      among the windows of `l` tokens is the number of matching positions. */
  lemma WindowsCount(vs: seq<string>, l: nat, w: string)
    requires 0 < l <= |vs|
    ensures Count(PhraseFinder.Windows(vs, l), w) == Matches(vs, l, w, |vs|)
  {
    WindowsPrefixCount(vs, l, w, |vs| - l + 1);
    assert PhraseFinder.Windows(vs, l)[..|vs| - l + 1] == PhraseFinder.Windows(vs, l);
    MatchesPastEnd(vs, l, w, |vs|);
  }

  /** On an alternating split the brute-force count of a phrase is its
      count among the windows of its own number of tokens, and zero when
      that number is out of range or the phrase is too short. */
  lemma OldCountIsLengthCount(cc: CharClasses, vs: seq<string>, maxPhraseTokens: int, minPhraseLength: int, w: string)
    requires RunsAreTokens(cc, vs)
    ensures Count(OldWindows(vs, maxPhraseTokens, minPhraseLength), w) ==
              if Counted(cc, w, maxPhraseTokens, minPhraseLength) && RunCount(cc, w) <= |vs|
              then Count(PhraseFinder.Windows(vs, RunCount(cc, w)), w) else 0
  {
    var l := RunCount(cc, w);
    OldRowsCount(cc, vs, |vs|, maxPhraseTokens, minPhraseLength, w);
    if Counted(cc, w, maxPhraseTokens, minPhraseLength) {
      if l <= |vs| {
        WindowsCount(vs, l, w);
      } else {
        MatchesPastEnd(vs, l, w, |vs|);
      }
    }
  }

  /** The baseline and the hash-based finder (before its deduplication)
      produce the same (phrase, frequency) candidates on any alternating
      split, in particular on every tokenizer output. */
  lemma OldAgreesWithOptimized(cc: CharClasses, tokens: seq<Token>, maxPhraseTokens: int, minFrequency: int,
                               minPhraseLength: int)
    requires Tokenizer.Alternating(cc, Values(tokens))
    ensures forall c :: c in FindPhrasesOld(tokens, maxPhraseTokens, minFrequency, minPhraseLength) <==>
              c in PhraseFinder.PhrasesBeforeDedup(Some(tokens), maxPhraseTokens, minFrequency, minPhraseLength)
  {
    AlternatingRunsAreTokens(cc, Values(tokens));
    forall c
      ensures c in FindPhrasesOld(tokens, maxPhraseTokens, minFrequency, minPhraseLength) <==>
              c in PhraseFinder.PhrasesBeforeDedup(Some(tokens), maxPhraseTokens, minFrequency, minPhraseLength)
    {
      if c in FindPhrasesOld(tokens, maxPhraseTokens, minFrequency, minPhraseLength) {
        OldToOptimized(cc, tokens, maxPhraseTokens, minFrequency, minPhraseLength, c);
      }
      if c in PhraseFinder.PhrasesBeforeDedup(Some(tokens), maxPhraseTokens, minFrequency, minPhraseLength) {
        OptimizedToOld(cc, tokens, maxPhraseTokens, minFrequency, minPhraseLength, c);
      }
    }
  }

  lemma OldToOptimized(cc: CharClasses, tokens: seq<Token>, maxPhraseTokens: int, minFrequency: int,
                       minPhraseLength: int, c: Candidate)
    requires RunsAreTokens(cc, Values(tokens))
    requires c in FindPhrasesOld(tokens, maxPhraseTokens, minFrequency, minPhraseLength)
    ensures c in PhraseFinder.PhrasesBeforeDedup(Some(tokens), maxPhraseTokens, minFrequency, minPhraseLength)
  {
    OldIsAdmitted(cc, Values(tokens), maxPhraseTokens, minFrequency, minPhraseLength, c);
  }

  lemma OptimizedToOld(cc: CharClasses, tokens: seq<Token>, maxPhraseTokens: int, minFrequency: int,
                       minPhraseLength: int, c: Candidate)
    requires RunsAreTokens(cc, Values(tokens))
    requires c in PhraseFinder.PhrasesBeforeDedup(Some(tokens), maxPhraseTokens, minFrequency, minPhraseLength)
    ensures c in FindPhrasesOld(tokens, maxPhraseTokens, minFrequency, minPhraseLength)
  {
    var vs := Values(tokens);
    forall l | 2 <= l <= maxPhraseTokens && PhraseFinder.Admitted(vs, l, minFrequency, minPhraseLength, c)
      ensures c in FindPhrasesOld(tokens, maxPhraseTokens, minFrequency, minPhraseLength)
    {
      AdmittedIsOld(cc, vs, l, maxPhraseTokens, minFrequency, minPhraseLength, c);
    }
  }

  /** A baseline candidate is admitted by the hash-based finder at its own
      number of runs. */
  lemma OldIsAdmitted(cc: CharClasses, vs: seq<string>, maxPhraseTokens: int, minFrequency: int,
                      minPhraseLength: int, c: Candidate)
    requires RunsAreTokens(cc, vs)
    requires c.code.None? && IsOldWindow(vs, c.text, maxPhraseTokens, minPhraseLength)
    requires c.frequency == Count(OldWindows(vs, maxPhraseTokens, minPhraseLength), c.text)
    requires c.frequency >= minFrequency
    ensures 2 <= RunCount(cc, c.text) <= maxPhraseTokens
    ensures PhraseFinder.Admitted(vs, RunCount(cc, c.text), minFrequency, minPhraseLength, c)
  {
    var w := c.text;
    var i, l :| 0 <= i && 2 <= l <= maxPhraseTokens && i + l <= |vs|
              && PhraseFinder.Window(vs, i, l) == w && |w| >= minPhraseLength;
    assert RunCount(cc, w) == l;
    OldCountIsLengthCount(cc, vs, maxPhraseTokens, minPhraseLength, w);
    var ws := PhraseFinder.Windows(vs, l);
    assert ws[i] == w;
  }

  /** A candidate the hash-based finder admits at length `l` is a
      baseline candidate. */
  lemma AdmittedIsOld(cc: CharClasses, vs: seq<string>, l: int, maxPhraseTokens: int, minFrequency: int,
                      minPhraseLength: int, c: Candidate)
    requires RunsAreTokens(cc, vs)
    requires 2 <= l <= maxPhraseTokens && PhraseFinder.Admitted(vs, l, minFrequency, minPhraseLength, c)
    ensures IsOldWindow(vs, c.text, maxPhraseTokens, minPhraseLength)
    ensures c.frequency == Count(OldWindows(vs, maxPhraseTokens, minPhraseLength), c.text)
  {
    var w := c.text;
    var ws := PhraseFinder.Windows(vs, l);
    var i :| 0 <= i < |ws| && ws[i] == w;
    assert PhraseFinder.Window(vs, i, l) == w;
    assert RunCount(cc, w) == l;
    OldCountIsLengthCount(cc, vs, maxPhraseTokens, minPhraseLength, w);
  }

  /** The two finders agree on the tokens of any text. */
  lemma OldAgreesOnTokenizedText(cc: CharClasses, text: string, maxPhraseTokens: int, minFrequency: int,
                                 minPhraseLength: int)
    ensures var tokens := Tokenizer.Tokenize(cc, Some(text));
            forall c :: c in FindPhrasesOld(tokens, maxPhraseTokens, minFrequency, minPhraseLength) <==>
              c in PhraseFinder.PhrasesBeforeDedup(Some(tokens), maxPhraseTokens, minFrequency, minPhraseLength)
  {
    Tokenizer.TokenizePartition(cc, text);
    OldAgreesWithOptimized(cc, Tokenizer.Tokenize(cc, Some(text)), maxPhraseTokens, minFrequency, minPhraseLength);
  }
}
