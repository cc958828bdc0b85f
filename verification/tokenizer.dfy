/** Splitting text into maximal runs of word and non-word characters
    (Tokenizer). Word characters are those of the regex class
    [\p{L}\p{N}_]; a token's kind is WORD when its first character is a
    letter, a decimal digit or an underscore. The two tests differ for
    numbers that are not decimal digits (superscripts, Roman numerals):
    such a run is matched as a word run but typed SEPARATOR, as in the
    source. */
module Tokenizer {
  import opened Wrappers
  import opened Seqs
  import opened Unicode
  import opened Model
  import Validation
  import PhraseFinder

  /** Membership in the regex class [\p{L}\p{N}_]. */
  predicate IsWordChar(cc: CharClasses, c: char) {
    cc.isLetterOrNumber(c) || c == '_'
  }

  /** Every character of `v` is in the same regex class as its first. */
  ghost predicate Homogeneous(cc: CharClasses, v: string) {
    forall i :: 0 <= i < |v| ==> IsWordChar(cc, v[i]) == IsWordChar(cc, v[0])
  }

  /** A list of token values that are non-empty single-class runs, each of
      the opposite class to its predecessor: a split into maximal runs. */
  ghost predicate Alternating(cc: CharClasses, vs: seq<string>)
    decreases |vs|
  {
    |vs| > 0 ==>
      && |vs[0]| > 0 && Homogeneous(cc, vs[0])
      && (|vs| > 1 ==> |vs[1]| > 0 && IsWordChar(cc, vs[1][0]) != IsWordChar(cc, vs[0][0]))
      && Alternating(cc, vs[1..])
  }

  /** Length of the longest prefix of `s` in the class of `s[0]`: the
      extent of one greedy match of the token pattern. */
  function RunLength(cc: CharClasses, s: string): (k: nat)
    requires |s| > 0
    ensures 0 < k <= |s|
    ensures Homogeneous(cc, s[..k])
    ensures k < |s| ==> IsWordChar(cc, s[k]) != IsWordChar(cc, s[0])
    decreases |s|
  {
    if |s| == 1 || IsWordChar(cc, s[1]) != IsWordChar(cc, s[0]) then 1
    else
      var k := 1 + RunLength(cc, s[1..]);
      HomogeneousCons(cc, s, k);
      k
  }

  /** A run of the class of `s[1]` behind a first character of that
      class is a run of the class of `s[0]`. */
  lemma HomogeneousCons(cc: CharClasses, s: string, k: nat)
    requires 1 < k <= |s|
    requires IsWordChar(cc, s[1]) == IsWordChar(cc, s[0])
    requires Homogeneous(cc, s[1..][..k - 1])
    ensures Homogeneous(cc, s[..k])
  {
    forall i | 0 < i < k
      ensures IsWordChar(cc, s[..k][i]) == IsWordChar(cc, s[0])
    {
      assert s[..k][i] == s[1..][..k - 1][i - 1];
    }
  }

  /** Every token is non-empty and typed by its first character. */
  ghost predicate Kinded(cc: CharClasses, r: seq<Token>) {
    forall i :: 0 <= i < |r| ==> |r[i].value| > 0 && r[i].kind == KindOf(cc, r[i].value)
  }

  /** The source's `isWord`: the first character is a letter, a digit or
      an underscore. */
  predicate IsWord(cc: CharClasses, v: string) {
    |v| > 0 && (cc.isLetterOrDigit(v[0]) || v[0] == '_')
  }

  function KindOf(cc: CharClasses, v: string): TokenType {
    if IsWord(cc, v) then Word else Separator
  }

  /** Tokens of `s`, the first one at offset `pos`: repeated greedy
      matches of the token pattern. */
  function TokenizeFrom(cc: CharClasses, s: string, pos: nat): (r: seq<Token>)
    ensures |r| <= |s|
    ensures Kinded(cc, r)
    decreases |s|
  {
    if |s| == 0 then []
    else
      var k := RunLength(cc, s);
      [Token(s[..k], KindOf(cc, s[..k]), pos)] + TokenizeFrom(cc, s[k..], pos + k)
  }

  /** The token values concatenate to the text and form a split into
      alternating single-class runs. */
  lemma TokenizeFromSplit(cc: CharClasses, s: string, pos: nat)
    ensures Concat(Values(TokenizeFrom(cc, s, pos))) == s
    ensures Alternating(cc, Values(TokenizeFrom(cc, s, pos)))
  {
    TokenizeFromConcat(cc, s, pos);
    TokenizeFromAlternating(cc, s, pos);
  }

  lemma {:induction false} TokenizeFromConcat(cc: CharClasses, s: string, pos: nat)
    ensures Concat(Values(TokenizeFrom(cc, s, pos))) == s
    decreases |s|
  {
    if |s| > 0 {
      var k := RunLength(cc, s);
      var first := Token(s[..k], KindOf(cc, s[..k]), pos);
      var rest := TokenizeFrom(cc, s[k..], pos + k);
      assert TokenizeFrom(cc, s, pos) == [first] + rest;
      TokenizeFromConcat(cc, s[k..], pos + k);
      ConcatCons(first, rest, s[..k], s[k..]);
      SliceSplit(s, k);
    }
  }

  lemma ConcatCons(t: Token, ts: seq<Token>, a: string, b: string)
    requires t.value == a && Concat(Values(ts)) == b
    ensures Concat(Values([t] + ts)) == a + b
  {
    ValuesCons(t, ts);
  }

  lemma {:induction false} TokenizeFromAlternating(cc: CharClasses, s: string, pos: nat)
    ensures Alternating(cc, Values(TokenizeFrom(cc, s, pos)))
    decreases |s|
  {
    if |s| > 0 {
      var k := RunLength(cc, s);
      var first := Token(s[..k], KindOf(cc, s[..k]), pos);
      var rest := TokenizeFrom(cc, s[k..], pos + k);
      assert TokenizeFrom(cc, s, pos) == [first] + rest;
      TokenizeFromAlternating(cc, s[k..], pos + k);
      ValuesCons(first, rest);
      if k < |s| {
        var t := s[k..];
        assert rest[0].value == t[..RunLength(cc, t)];
        assert Values(rest)[0][0] == s[k];
      }
      assert forall i :: 0 <= i < k ==> s[..k][i] == s[i];
      AlternatingCons(cc, s[..k], Values(rest));
    }
  }

  lemma ValuesCons(t: Token, ts: seq<Token>)
    ensures Values([t] + ts) == [t.value] + Values(ts)
    ensures Concat(Values([t] + ts)) == t.value + Concat(Values(ts))
  {
    assert Values([t] + ts) == [t.value] + Values(ts);
  }

  /** A single-class run in front of a split that starts with the other
      class extends the split. */
  lemma AlternatingCons(cc: CharClasses, v: string, vs: seq<string>)
    requires |v| > 0 && Homogeneous(cc, v) && Alternating(cc, vs)
    requires |vs| > 0 ==> IsWordChar(cc, vs[0][0]) != IsWordChar(cc, v[0])
    ensures Alternating(cc, [v] + vs)
  {
    assert ([v] + vs)[1..] == vs;
  }

  /** A concatenation starts with the first character of its first part. */
  lemma ConcatHead(vs: seq<string>)
    requires |vs| > 0 && |vs[0]| > 0
    ensures |Concat(vs)| > 0 && Concat(vs)[0] == vs[0][0]
  {
  }

  /** The source's `tokenize`: null or empty text gives no tokens. */
  function Tokenize(cc: CharClasses, text: Option<string>): (r: seq<Token>)
    ensures text.None? || text == Some("") ==> r == []
    ensures text.Some? ==> Concat(Values(r)) == text.value
  {
    match text
    case None => []
    case Some(t) => if |t| == 0 then [] else TokenizeFromSplit(cc, t, 0); TokenizeFrom(cc, t, 0)
  }

  /** The tokens partition the text into maximal runs: concatenating the
      values gives the text back, no token is empty, each token is a single
      class and neighbours are of opposite classes, and the kind of each
      token is decided by its first character. */
  lemma TokenizePartition(cc: CharClasses, t: string)
    ensures var r := Tokenize(cc, Some(t));
            && Concat(Values(r)) == t
            && Alternating(cc, Values(r))
            && forall i :: 0 <= i < |r| ==>
                 && |r[i].value| > 0
                 && (r[i].kind == Word <==> cc.isLetterOrDigit(r[i].value[0]) || r[i].value[0] == '_')
  {
    TokenizeFromSplit(cc, t, 0);
  }

  /** The prefix of a split that starts with `v`, one part longer than a
      prefix of the rest, is `v` followed by that prefix. */
  lemma ConcatConsPrefix(v: string, xs: seq<string>, j: nat)
    requires j <= |xs|
    ensures Concat(([v] + xs)[..j + 1]) == v + Concat(xs[..j])
  {
    assert ([v] + xs)[..j + 1] == [v] + xs[..j];
    assert ([v] + xs[..j])[1..] == xs[..j];
  }

  /** Each token's position is the total length of the tokens before it. */
  lemma {:induction false} TokenizeFromPositions(cc: CharClasses, s: string, pos: nat)
    ensures forall i :: 0 <= i < |TokenizeFrom(cc, s, pos)| ==>
              TokenizeFrom(cc, s, pos)[i].position == pos + |Concat(Values(TokenizeFrom(cc, s, pos))[..i])|
    decreases |s|
  {
    if |s| > 0 {
      var k := RunLength(cc, s);
      var first := Token(s[..k], KindOf(cc, s[..k]), pos);
      var rest := TokenizeFrom(cc, s[k..], pos + k);
      var r := TokenizeFrom(cc, s, pos);
      assert r == [first] + rest;
      TokenizeFromPositions(cc, s[k..], pos + k);
      ValuesCons(first, rest);
      forall i | 0 <= i < |r|
        ensures r[i].position == pos + |Concat(Values(r)[..i])|
      {
        if i == 0 {
          assert Values(r)[..0] == [];
          assert r[0] == first;
        } else {
          ConcatConsPrefix(s[..k], Values(rest), i - 1);
          assert Values(r) == [s[..k]] + Values(rest);
          assert r[i] == rest[i - 1];
          assert rest[i - 1].position == pos + k + |Concat(Values(rest)[..i - 1])|;
        }
      }
    }
  }

  lemma TokenizePositions(cc: CharClasses, t: string)
    ensures var r := Tokenize(cc, Some(t));
            forall i :: 0 <= i < |r| ==> r[i].position == |Concat(Values(r)[..i])|
  {
    if |t| > 0 {
      assert Tokenize(cc, Some(t)) == TokenizeFrom(cc, t, 0);
      TokenizeFromPositions(cc, t, 0);
    }
  }

  /** A single-class run followed by text of the other class (or by
      nothing) is exactly one greedy match. */
  lemma {:induction false} RunLengthOfRun(cc: CharClasses, h: string, rest: string)
    requires |h| > 0 && Homogeneous(cc, h)
    requires |rest| > 0 ==> IsWordChar(cc, rest[0]) != IsWordChar(cc, h[0])
    ensures RunLength(cc, h + rest) == |h|
    decreases |h|
  {
    if |h| > 1 {
      assert (h + rest)[1..] == h[1..] + rest;
      RunLengthOfRun(cc, h[1..], rest);
    }
  }

  /** A text that starts with a maximal run `v` tokenizes as `v`
      followed by the tokens of the remainder. */
  lemma TokenizeFromStep(cc: CharClasses, v: string, tail: string, pos: nat)
    requires |v| > 0 && Homogeneous(cc, v)
    requires |tail| > 0 ==> IsWordChar(cc, tail[0]) != IsWordChar(cc, v[0])
    ensures Values(TokenizeFrom(cc, v + tail, pos)) == [v] + Values(TokenizeFrom(cc, tail, pos + |v|))
  {
    var s := v + tail;
    RunLengthOfRun(cc, v, tail);
    assert s[..|v|] == v && s[|v|..] == tail;
    ValuesCons(Token(v, KindOf(cc, v), pos), TokenizeFrom(cc, tail, pos + |v|));
  }

  /** The split into maximal runs is unique: any list of alternating
      single-class runs that concatenates to `s` is the tokenization of
      `s`. */
  lemma {:induction false} TokenizationUnique(cc: CharClasses, vs: seq<string>, s: string, pos: nat)
    requires Alternating(cc, vs) && Concat(vs) == s
    ensures Values(TokenizeFrom(cc, s, pos)) == vs
    decreases |vs|
  {
    if |vs| > 0 {
      var tail := Concat(vs[1..]);
      AlternatingNext(cc, vs);
      TokenizationUnique(cc, vs[1..], tail, pos + |vs[0]|);
      UniqueStep(cc, vs, s, tail, pos);
    } else {
      assert |s| == 0;
    }
  }

  lemma UniqueStep(cc: CharClasses, vs: seq<string>, s: string, tail: string, pos: nat)
    requires |vs| > 0 && |vs[0]| > 0 && Homogeneous(cc, vs[0]) && s == vs[0] + tail
    requires |tail| > 0 ==> IsWordChar(cc, tail[0]) != IsWordChar(cc, vs[0][0])
    requires Values(TokenizeFrom(cc, tail, pos + |vs[0]|)) == vs[1..]
    ensures Values(TokenizeFrom(cc, s, pos)) == vs
  {
    TokenizeFromStep(cc, vs[0], tail, pos);
    SeqHeadTail(vs);
  }

  /** In a split into alternating runs, the text after the first run
      starts with the other class. */
  lemma AlternatingNext(cc: CharClasses, vs: seq<string>)
    requires |vs| > 0 && Alternating(cc, vs)
    ensures |vs[0]| > 0 && Homogeneous(cc, vs[0]) && Alternating(cc, vs[1..])
    ensures Concat(vs) == vs[0] + Concat(vs[1..])
    ensures |Concat(vs[1..])| > 0 ==> IsWordChar(cc, Concat(vs[1..])[0]) != IsWordChar(cc, vs[0][0])
  {
    if |vs| > 1 {
      ConcatHead(vs[1..]);
      assert vs[1..][0] == vs[1];
    } else {
      assert vs[1..] == [];
    }
  }

  lemma AlternatingTail(cc: CharClasses, vs: seq<string>)
    requires |vs| > 0 && Alternating(cc, vs)
    ensures Alternating(cc, vs[1..])
  {
  }

  /** Number of WORD tokens with value `w`. */
  function WordCount(ts: seq<Token>, w: string): (n: nat)
    ensures n <= |ts|
    decreases |ts|
  {
    if |ts| == 0 then 0
    else WordCount(ts[..|ts| - 1], w) + (if ts[|ts| - 1].kind == Word && ts[|ts| - 1].value == w then 1 else 0)
  }

  /** Values of the WORD tokens admitted by the one-argument
      `shouldEncodeWord`, in text order. */
  function AdmittedWords(cc: CharClasses, ts: seq<Token>): (ws: seq<string>)
    ensures forall w :: Count(ws, w) == if Validation.ShouldEncodeWord(cc, Some(w)) then WordCount(ts, w) else 0
    decreases |ts|
  {
    if |ts| == 0 then []
    else
      var prev := AdmittedWords(cc, ts[..|ts| - 1]);
      var t := ts[|ts| - 1];
      var ws := if t.kind == Word && Validation.ShouldEncodeWord(cc, Some(t.value)) then prev + [t.value] else prev;
      assert forall w :: Count(ws, w) == Count(prev, w) + (if ws != prev && t.value == w then 1 else 0) by {
        forall w ensures Count(ws, w) == Count(prev, w) + (if ws != prev && t.value == w then 1 else 0) {
          if ws != prev {
            CountAppend(prev, [t.value], w);
            CountSingle(t.value, w);
          }
        }
      }
      ws
  }

  /** The elements of `ws` whose count in `all` reaches `minFrequency`,
      in order. */
  function KeepFrequent(ws: seq<string>, all: seq<string>, minFrequency: int): (r: seq<string>)
    ensures forall w :: w in r <==> w in ws && Count(all, w) >= minFrequency
    ensures Distinct(ws) ==> Distinct(r)
    decreases |ws|
  {
    if |ws| == 0 then []
    else
      var init := ws[..|ws| - 1];
      var prev := KeepFrequent(init, all, minFrequency);
      var last := ws[|ws| - 1];
      assert ws == init + [last];
      if Count(all, last) >= minFrequency then prev + [last] else prev
  }

  /** The source's `findWordsToEncode`: the distinct WORD tokens admitted
      by the one-argument `shouldEncodeWord` that occur at least
      `minFrequency` times (in first-occurrence order, standing in for the
      hash map's order). */
  function FindWordsToEncode(cc: CharClasses, text: Option<string>, minFrequency: int): (r: seq<string>)
    ensures Distinct(r)
    ensures forall w :: w in r <==>
              && Validation.ShouldEncodeWord(cc, Some(w))
              && WordCount(Tokenize(cc, text), w) >= minFrequency
              && WordCount(Tokenize(cc, text), w) > 0
  {
    var ws := AdmittedWords(cc, Tokenize(cc, text));
    var r := KeepFrequent(Dedup(ws), ws, minFrequency);
    DedupMembers(ws);
    r
  }

  /** The source's `findPhraseCandidates` delegates to the hash-based
      phrase finder with the same arguments: ranked, substring-free
      phrases, each one repeated at least `minFrequency` times. */
  function FindPhraseCandidates(tokens: Option<seq<Token>>, maxPhraseTokens: int, minFrequency: int,
                                minPhraseLength: int): (r: seq<Candidate>)
    ensures tokens.None? || |tokens.value| < 2 ==> r == []
    ensures SortedDesc(r, PhraseFinder.Score)
    ensures forall c :: c in r ==> c.code == None && c.frequency >= minFrequency && |c.text| >= minPhraseLength
  {
    PhraseFinder.FindPhrasesOptimized(tokens, maxPhraseTokens, minFrequency, minPhraseLength)
  }
}
