/** Detection of repeated multi-token phrases (PhraseFinder): windows of
    2..K consecutive tokens are rendered by concatenation, grouped by Java
    hash, counted exactly inside each hash bucket, deduplicated against
    longer phrases and ranked by length times frequency. */
module PhraseFinder {
  import opened Wrappers
  import opened Seqs
  import opened Model

  /** Java's String.hashCode, h = 31 * h + c over the characters, reduced
      modulo 2^32 (the int wrap-around; the sign does not affect bucket
      equality). */
  function JavaHash(s: string): (h: nat)
    ensures h < 0x1_0000_0000
    decreases |s|
  {
    if |s| == 0 then 0
    else (31 * JavaHash(s[..|s| - 1]) + s[|s| - 1] as int) % 0x1_0000_0000
  }

  /** The rendering of `len` consecutive tokens starting at token `i`. */
  function Window(vs: seq<string>, i: nat, len: nat): string
    requires i + len <= |vs|
  {
    Concat(vs[i..i + len])
  }

  /** All windows of `len` tokens, in position order. */
  function Windows(vs: seq<string>, len: nat): (ws: seq<string>)
    requires 0 < len <= |vs|
    ensures |ws| == |vs| - len + 1
    ensures forall i :: 0 <= i < |ws| ==> ws[i] == Window(vs, i, len)
  {
    seq(|vs| - len + 1, i requires 0 <= i < |vs| - len + 1 => Window(vs, i, len))
  }

  /** The source's `getPhrase`: the tokens from `start` on, at most
      `length` of them, stopping at the end of the list. */
  function GetPhrase(vs: seq<string>, start: nat, length: nat): (r: string)
    ensures start + length <= |vs| ==> r == Window(vs, start, length)
    decreases length
  {
    if length == 0 || start >= |vs| then ""
    else
      assert start + length <= |vs| ==> vs[start..start + length] == [vs[start]] + vs[start + 1..start + length];
      vs[start] + GetPhrase(vs, start + 1, length - 1)
  }

  /** Dropping the first token's characters from a window and appending
      the next token gives the following window. */
  lemma SlideWindow(vs: seq<string>, i: nat, len: nat)
    requires 0 < i && 0 < len && i + len <= |vs|
    ensures |vs[i - 1]| <= |Window(vs, i - 1, len)|
    ensures Window(vs, i - 1, len)[|vs[i - 1]|..] + vs[i + len - 1] == Window(vs, i, len)
  {
    assert vs[i - 1..i - 1 + len] == [vs[i - 1]] + vs[i..i + len - 1];
    assert Window(vs, i - 1, len) == vs[i - 1] + Concat(vs[i..i + len - 1]);
    assert vs[i..i + len] == vs[i..i + len - 1] + [vs[i + len - 1]];
    ConcatAppend(vs[i..i + len - 1], [vs[i + len - 1]]);
    assert Concat([vs[i + len - 1]]) == vs[i + len - 1];
  }

  /** The windows from position `i` on, each rebuilt from the previous one
      as the source does: `getPhrase(i - 1)` with the previous first
      token's characters cut off, followed by the new last token. */
  function RollFrom(vs: seq<string>, len: nat, i: nat): (ws: seq<string>)
    requires 0 < i && 0 < len && len <= |vs| && i <= |vs| - len + 1
    ensures |ws| == |vs| - len + 1 - i
    ensures forall k :: 0 <= k < |ws| ==> ws[k] == Window(vs, i + k, len)
    decreases |vs| - i
  {
    if i > |vs| - len then []
    else
      var prev := GetPhrase(vs, i - 1, len);
      SlideWindow(vs, i, len);
      var current := prev[|vs[i - 1]|..] + vs[i + len - 1];
      [current] + RollFrom(vs, len, i + 1)
  }

  /** The windows of one phrase length, in position order, as the source
      renders them: the first by concatenation, the rest incrementally. */
  function RollingWindows(vs: seq<string>, len: nat): (ws: seq<string>)
    requires 0 < len <= |vs|
    ensures ws == Windows(vs, len)
  {
    var first := GetPhrase(vs, 0, len);
    var ws := [first] + RollFrom(vs, len, 1);
    assert forall k :: 0 <= k < |ws| ==> ws[k] == Window(vs, k, len);
    ws
  }

  /** The windows whose hash is `h`, in position order (one hash bucket). */
  function Bucket(ws: seq<string>, h: nat): (b: seq<string>)
    ensures |b| <= |ws|
    ensures forall w :: Count(b, w) == if JavaHash(w) == h then Count(ws, w) else 0
    decreases |ws|
  {
    if |ws| == 0 then []
    else
      var prev := Bucket(ws[..|ws| - 1], h);
      var last := ws[|ws| - 1];
      var b := if JavaHash(last) == h then prev + [last] else prev;
      assert forall w :: Count(b, w) == Count(prev, w) + (if b != prev && last == w then 1 else 0) by {
        forall w ensures Count(b, w) == Count(prev, w) + (if b != prev && last == w then 1 else 0) {
          if b != prev {
            CountAppend(prev, [last], w);
            CountSingle(last, w);
          }
        }
      }
      b
  }

  /** A bucket smaller than `minFrequency` cannot hold any phrase that
      often, so skipping it loses nothing. */
  lemma BucketPruning(ws: seq<string>, p: string, minFrequency: int)
    requires |Bucket(ws, JavaHash(p))| < minFrequency
    ensures Count(ws, p) < minFrequency
  {
    var b := Bucket(ws, JavaHash(p));
    assert Count(b, p) == Count(ws, p);
  }

  /** The candidates of one phrase length: for each distinct window, its
      hash bucket is skipped when smaller than `minFrequency`; otherwise
      the window's exact count among the bucket's windows is its
      frequency, and it is admitted when that count and its length reach
      the thresholds. */
  function BucketCandidates(ps: seq<string>, ws: seq<string>, minFrequency: int,
                            minPhraseLength: int): (r: seq<Candidate>)
    ensures forall c :: c in r <==>
              && c.code == None && c.text in ps
              && c.frequency == Count(ws, c.text)
              && c.frequency >= minFrequency && |c.text| >= minPhraseLength
    ensures Distinct(ps) ==> forall i, j :: 0 <= i < j < |r| ==> r[i].text != r[j].text
    ensures forall i :: 0 <= i < |r| ==> r[i].text in ps
    decreases |ps|
  {
    if |ps| == 0 then []
    else
      var init := ps[..|ps| - 1];
      var p := ps[|ps| - 1];
      assert ps == init + [p];
      var prev := BucketCandidates(init, ws, minFrequency, minPhraseLength);
      var bucket := Bucket(ws, JavaHash(p));
      if |bucket| < minFrequency then
        BucketPruning(ws, p, minFrequency);
        prev
      else
        var exact := Count(bucket, p);
        if exact >= minFrequency && |p| >= minPhraseLength then prev + [Candidate(p, exact, None)]
        else prev
  }

  function LengthCandidates(vs: seq<string>, len: nat, minFrequency: int,
                            minPhraseLength: int): (r: seq<Candidate>)
    requires 0 < len <= |vs|
    ensures forall c :: c in r <==> Admitted(vs, len, minFrequency, minPhraseLength, c)
  {
    var ws := RollingWindows(vs, len);
    var ps := Dedup(ws);
    DedupMembers(ws);
    BucketCandidates(ps, ws, minFrequency, minPhraseLength)
  }

  /** `c` is an admitted phrase of `l` tokens: one of the windows of that
      length, whose frequency is its exact number of occurrences among
      them and which meets both thresholds. */
  ghost predicate Admitted(vs: seq<string>, l: int, minFrequency: int, minPhraseLength: int, c: Candidate) {
    && 0 < l <= |vs|
    && c.code == None && c.text in Windows(vs, l)
    && c.frequency == Count(Windows(vs, l), c.text)
    && c.frequency >= minFrequency && |c.text| >= minPhraseLength
  }

  /** The candidates of every phrase length from `len` up to
      `maxPhraseTokens` (stopping at the token count), before
      deduplication. */
  function CandidatesFrom(vs: seq<string>, len: nat, maxPhraseTokens: int, minFrequency: int,
                          minPhraseLength: int): (r: seq<Candidate>)
    requires 0 < len
    ensures forall c :: c in r <==> exists l :: len <= l <= maxPhraseTokens && Admitted(vs, l, minFrequency, minPhraseLength, c)
    decreases |vs| - len
  {
    if len > maxPhraseTokens || len > |vs| then []
    else
      var here := LengthCandidates(vs, len, minFrequency, minPhraseLength);
      var rest := CandidatesFrom(vs, len + 1, maxPhraseTokens, minFrequency, minPhraseLength);
      CandidatesJoin(vs, len, maxPhraseTokens, minFrequency, minPhraseLength, here, rest);
      here + rest
  }

  lemma CandidatesJoin(vs: seq<string>, len: nat, maxPhraseTokens: int, minFrequency: int, minPhraseLength: int,
                       here: seq<Candidate>, rest: seq<Candidate>)
    requires len <= maxPhraseTokens
    requires forall c :: c in here <==> Admitted(vs, len, minFrequency, minPhraseLength, c)
    requires forall c :: c in rest <==> exists l :: len + 1 <= l <= maxPhraseTokens && Admitted(vs, l, minFrequency, minPhraseLength, c)
    ensures forall c :: c in here + rest <==> exists l :: len <= l <= maxPhraseTokens && Admitted(vs, l, minFrequency, minPhraseLength, c)
  {
    forall c ensures c in here + rest <==> exists l :: len <= l <= maxPhraseTokens && Admitted(vs, l, minFrequency, minPhraseLength, c) {
      if c in here {
        assert Admitted(vs, len, minFrequency, minPhraseLength, c);
      }
      if exists l :: len <= l <= maxPhraseTokens && Admitted(vs, l, minFrequency, minPhraseLength, c) {
        var l :| len <= l <= maxPhraseTokens && Admitted(vs, l, minFrequency, minPhraseLength, c);
        if l > len {
          assert c in rest;
        }
      }
    }
  }

  /** Phrase candidates of the hash-based finder before deduplication:
      nothing for a null list or fewer than two tokens. */
  function PhrasesBeforeDedup(tokens: Option<seq<Token>>, maxPhraseTokens: int, minFrequency: int,
                              minPhraseLength: int): (r: seq<Candidate>)
    ensures tokens.None? || |tokens.value| < 2 ==> r == []
    ensures tokens.Some? ==> forall c :: c in r <==>
              exists l :: 2 <= l <= maxPhraseTokens && Admitted(Values(tokens.value), l, minFrequency, minPhraseLength, c)
  {
    match tokens
    case None => []
    case Some(ts) =>
      if |ts| < 2 then []
      else CandidatesFrom(Values(ts), 2, maxPhraseTokens, minFrequency, minPhraseLength)
  }

  function TextLength(c: Candidate): int { |c.text| }

  function Score(c: Candidate): int { |c.text| * c.frequency }

  /** No phrase of the list occurs inside another one, and no candidate
      is listed twice. */
  ghost predicate SubstringFree(cs: seq<Candidate>) {
    && Distinct(cs)
    && forall x, y :: x in cs && y in cs && x != y ==> !IsSubstring(x.text, y.text)
  }

  lemma SortedDrop(kept: seq<Candidate>, cs: seq<Candidate>)
    requires |cs| > 0 && SortedDesc(kept + cs, TextLength)
    ensures SortedDesc(kept + cs[1..], TextLength)
    ensures SortedDesc((kept + [cs[0]]) + cs[1..], TextLength)
    ensures forall k :: k in kept ==> |k.text| >= |cs[0].text|
  {
    assert (kept + [cs[0]]) + cs[1..] == kept + cs;
    var s := kept + cs;
    var t := kept + cs[1..];
    forall i, j | 0 <= i < j < |t| ensures TextLength(t[i]) >= TextLength(t[j]) {
      var i' := if i < |kept| then i else i + 1;
      var j' := if j < |kept| then j else j + 1;
      assert t[i] == s[i'] && t[j] == s[j'];
    }
    forall k | k in kept ensures |k.text| >= |cs[0].text| {
      var i :| 0 <= i < |kept| && kept[i] == k;
      assert s[i] == k && s[|kept|] == cs[0];
    }
  }

  /** The dedup loop over candidates sorted by length: a candidate is kept
      unless a phrase kept earlier contains it. */
  function KeepLongest(cs: seq<Candidate>, kept: seq<Candidate>): (r: seq<Candidate>)
    requires SortedDesc(kept + cs, TextLength)
    requires SubstringFree(kept)
    ensures SubstringFree(r)
    ensures forall c :: c in r ==> c in kept || c in cs
    ensures forall c :: c in kept ==> c in r
    ensures forall c :: c in cs ==> c in r || exists k :: k in r && IsSubstring(c.text, k.text) && |k.text| >= |c.text|
    decreases |cs|
  {
    if |cs| == 0 then kept
    else
      var c := cs[0];
      SortedDrop(kept, cs);
      var covered := exists k :: k in kept && Contains(k.text, c.text);
      if covered then
        var k :| k in kept && Contains(k.text, c.text);
        SubstringLength(c.text, k.text);
        KeepLongest(cs[1..], kept)
      else
        AppendKeepsFree(kept, c);
        KeepLongest(cs[1..], kept + [c])
  }

  /** A phrase that no kept phrase contains and that is no longer than any
      of them can be kept. */
  lemma AppendKeepsFree(kept: seq<Candidate>, c: Candidate)
    requires SubstringFree(kept)
    requires forall k :: k in kept ==> !IsSubstring(c.text, k.text) && |k.text| >= |c.text|
    ensures SubstringFree(kept + [c])
  {
    var n := kept + [c];
    SubstringRefl(c.text);
    assert c !in kept;
    forall x, y | x in n && y in n && x != y ensures !IsSubstring(x.text, y.text) {
      if x != c && y == c && IsSubstring(x.text, c.text) {
        SubstringLength(x.text, c.text);
      }
    }
  }

  /** The source's `removeDuplicatePhrases`: sort by length, longest
      first, then keep each phrase that no kept phrase contains. The result
      is drawn from the input, no kept phrase lies inside another, and each
      dropped phrase lies inside a kept phrase at least as long. */
  function RemoveDuplicatePhrases(cs: seq<Candidate>): (r: seq<Candidate>)
    ensures forall c :: c in r ==> c in cs
    ensures SubstringFree(r)
    ensures forall c :: c in cs ==> c in r || exists k :: k in r && IsSubstring(c.text, k.text) && |k.text| >= |c.text|
  {
    var sorted := SortDesc(cs, TextLength);
    SortDescMembers(cs, TextLength);
    assert [] + sorted == sorted;
    KeepLongest(sorted, [])
  }

  /** The source's `findPhrasesOptimized`: deduplicated candidates ranked
      by length times frequency, highest first. */
  function FindPhrasesOptimized(tokens: Option<seq<Token>>, maxPhraseTokens: int, minFrequency: int,
                                minPhraseLength: int): (r: seq<Candidate>)
    ensures tokens.None? || |tokens.value| < 2 ==> r == []
    ensures SortedDesc(r, Score)
    ensures SubstringFree(r)
    ensures forall c :: c in r ==> c in PhrasesBeforeDedup(tokens, maxPhraseTokens, minFrequency, minPhraseLength)
    ensures forall c :: c in PhrasesBeforeDedup(tokens, maxPhraseTokens, minFrequency, minPhraseLength) ==>
              c in r || exists k :: k in r && IsSubstring(c.text, k.text) && |k.text| >= |c.text|
  {
    var pre := PhrasesBeforeDedup(tokens, maxPhraseTokens, minFrequency, minPhraseLength);
    var deduped := RemoveDuplicatePhrases(pre);
    RankKeepsFree(deduped);
    SortDesc(deduped, Score)
  }

  /** Ranking rearranges the phrases without adding, losing or repeating
      any. */
  lemma RankKeepsFree(cs: seq<Candidate>)
    requires SubstringFree(cs)
    ensures SubstringFree(SortDesc(cs, Score))
    ensures forall c :: c in SortDesc(cs, Score) <==> c in cs
  {
    SortDescMembers(cs, Score);
    DistinctPermutation(cs, SortDesc(cs, Score));
  }
}
