/** The textual forms of a dictionary in the two desktop front ends (the
    same helpers appear in both): one `code=word` line per entry, the
    parser that reads such text back, merging two dictionaries, pruning a
    dictionary against a text, and the export for chat bots. */
module DictionaryText {
  import opened Wrappers
  import opened Seqs
  import opened Model

  // ---------------------------------------------------------------------
  // Rendering

  /** One entry as a line, without its line break. */
  function EntryLine(e: DictEntry): string {
    e.code + "=" + e.word
  }

  /** The lines of a dictionary, in order. */
  function Lines(d: seq<DictEntry>): (ls: seq<string>)
    ensures |ls| == |d| && forall i :: 0 <= i < |d| ==> ls[i] == EntryLine(d[i])
  {
    seq(|d|, i requires 0 <= i < |d| => EntryLine(d[i]))
  }

  /** The text of `displayDictionary`: each entry's line followed by a
      line break, so that without line breaks in codes and words the text
      holds one line break per entry and ends with one. */
  function Render(d: seq<DictEntry>): (r: string)
    ensures EntriesNoBreaks(d) ==> Count(r, '\n') == |d|
    ensures |d| > 0 ==> |r| > 0 && r[|r| - 1] == '\n'
    decreases |d|
  {
    if |d| == 0 then ""
    else
      var l := EntryLine(d[0]);
      var rest := Render(d[1..]);
      if EntriesNoBreaks(d) then
        EntryLineChars(d[0]);
        assert EntriesNoBreaks(d[1..]) by {
          forall k | 0 <= k < |d[1..]| ensures '\n' !in d[1..][k].code && '\n' !in d[1..][k].word {
            assert d[1..][k] == d[k + 1];
          }
        }
        CountAppend(l + "\n", rest, '\n');
        CountAppend(l, "\n", '\n');
        CountSingle('\n', '\n');
        l + "\n" + rest
      else l + "\n" + rest
  }

  // ---------------------------------------------------------------------
  // Splitting

  /** `s` cut at every `sep`, empty pieces included. */
  function SplitAll(s: string, sep: char): (r: seq<string>)
    ensures |r| >= 1
    ensures forall i :: 0 <= i < |r| ==> sep !in r[i]
    ensures sep !in s ==> r == [s]
    decreases |s|
  {
    if |s| == 0 then [""]
    else
      var rest := SplitAll(s[1..], sep);
      if s[0] == sep then [""] + rest
      else
        assert sep !in s ==> [s[0]] + rest[0] == s;
        [[s[0]] + rest[0]] + rest[1..]
  }

  /** Joining the pieces with the separator gives the string back. */
  lemma {:induction false} SplitJoin(s: string, sep: char)
    ensures Join(SplitAll(s, sep), [sep]) == s
    decreases |s|
  {
    if |s| > 0 {
      var rest := SplitAll(s[1..], sep);
      SplitJoin(s[1..], sep);
      if s[0] != sep && |rest| > 1 {
        assert Join(rest, [sep]) == rest[0] + [sep] + Join(rest[1..], [sep]);
      }
    }
  }

  /** A line without the separator is the first piece of a text it
      starts. */
  lemma {:induction false} SplitLine(l: string, t: string, sep: char)
    requires sep !in l
    ensures SplitAll(l + [sep] + t, sep) == [l] + SplitAll(t, sep)
    decreases |l|
  {
    var s := l + [sep] + t;
    if |l| == 0 {
      assert s[0] == sep && s[1..] == t;
    } else {
      assert s[0] == l[0] && s[1..] == l[1..] + [sep] + t;
      SplitLine(l[1..], t, sep);
      assert [l[0]] + l[1..] == l;
    }
  }

  /** The list without its trailing empty strings. */
  function DropTrailingEmpty(r: seq<string>): (q: seq<string>)
    ensures |q| <= |r| && q == r[..|q|]
    ensures forall i :: |q| <= i < |r| ==> r[i] == ""
    ensures |q| > 0 ==> q[|q| - 1] != ""
    decreases |r|
  {
    if |r| == 0 then []
    else if r[|r| - 1] == "" then DropTrailingEmpty(r[..|r| - 1])
    else r
  }

  /** Java's `String.split` with a one-character pattern: the whole
      string when the separator does not occur, otherwise the pieces with
      trailing empty strings removed. */
  function JavaSplit(s: string, sep: char): (r: seq<string>)
    ensures forall i :: 0 <= i < |r| ==> sep !in r[i]
    ensures sep !in s ==> r == [s]
    ensures var j := Join(r, [sep]); |j| <= |s| && s[..|j|] == j && forall i :: |j| <= i < |s| ==> s[i] == sep
  {
    if sep !in s then [s]
    else
      var all := SplitAll(s, sep);
      SplitJoin(s, sep);
      JoinDropped(all, sep);
      DropTrailingEmpty(all)
  }

  /** Dropping trailing empty pieces shortens the joined text by
      separators only. */
  lemma {:induction false} JoinDropped(r: seq<string>, sep: char)
    ensures var j, q := Join(r, [sep]), Join(DropTrailingEmpty(r), [sep]);
            |q| <= |j| && j[..|q|] == q && forall i :: |q| <= i < |j| ==> j[i] == sep
    decreases |r|
  {
    if |r| > 0 && r[|r| - 1] == "" {
      var init := r[..|r| - 1];
      assert r == init + [""];
      JoinDropped(init, sep);
      JoinSnoc(init, "", sep);
      var j0, q := Join(init, [sep]), Join(DropTrailingEmpty(r), [sep]);
      assert DropTrailingEmpty(r) == DropTrailingEmpty(init);
      if |init| > 0 {
        var j := Join(r, [sep]);
        assert j == j0 + [sep];
        assert j[..|q|] == j0[..|q|];
        assert forall i :: |q| <= i < |j| ==> j[i] == sep by {
          forall i | |q| <= i < |j| ensures j[i] == sep {
            if i < |j0| {
              assert j[i] == j0[i];
            }
          }
        }
      }
    }
  }

  /** Appending a piece appends a separator and the piece. */
  lemma {:induction false} JoinSnoc(r: seq<string>, x: string, sep: char)
    ensures Join(r + [x], [sep]) == if |r| == 0 then x else Join(r, [sep]) + [sep] + x
    decreases |r|
  {
    if |r| > 1 {
      assert (r + [x])[1..] == r[1..] + [x];
      JoinSnoc(r[1..], x, sep);
    } else if |r| == 1 {
      assert r + [x] == [r[0], x];
      assert [r[0], x][1..] == [x];
    }
  }

  // ---------------------------------------------------------------------
  // Trimming

  /** The characters `String.trim` removes: U+0000..U+0020. */
  predicate IsTrimmed(c: char) {
    c <= ' '
  }

  /** No removable character at either end. */
  predicate Trimmed(s: string) {
    |s| == 0 || (!IsTrimmed(s[0]) && !IsTrimmed(s[|s| - 1]))
  }

  /** How many removable characters `s` starts with. */
  function LeadingTrimmed(s: string): (n: nat)
    ensures n <= |s|
    ensures forall k :: 0 <= k < n ==> IsTrimmed(s[k])
    ensures n < |s| ==> !IsTrimmed(s[n])
    decreases |s|
  {
    if |s| > 0 && IsTrimmed(s[0]) then 1 + LeadingTrimmed(s[1..]) else 0
  }

  /** How many removable characters `s` ends with. */
  function TrailingTrimmed(s: string): (n: nat)
    ensures n <= |s|
    ensures forall k :: |s| - n <= k < |s| ==> IsTrimmed(s[k])
    ensures n < |s| ==> !IsTrimmed(s[|s| - n - 1])
    decreases |s|
  {
    if |s| > 0 && IsTrimmed(s[|s| - 1]) then 1 + TrailingTrimmed(s[..|s| - 1]) else 0
  }

  function TrimStart(s: string): string {
    s[LeadingTrimmed(s)..]
  }

  function TrimEnd(s: string): string {
    s[..|s| - TrailingTrimmed(s)]
  }

  /** Java's `String.trim`: the string without removable characters at
      either end. */
  function Trim(s: string): (r: string)
    ensures Trimmed(r) && |r| <= |s|
    ensures Trimmed(s) ==> r == s
    ensures '=' in r <==> '=' in s
    ensures '\n' in r ==> '\n' in s
  {
    var t := TrimStart(s);
    var r := TrimEnd(t);
    assert '=' in s ==> '=' in r by {
      if '=' in s {
        var k :| 0 <= k < |s| && s[k] == '=';
        assert s[k] == t[k - LeadingTrimmed(s)];
        assert t[k - LeadingTrimmed(s)] == r[k - LeadingTrimmed(s)];
      }
    }
    r
  }

  /** Trimming the end of `a + b`, when `a` ends in a kept character,
      trims only `b`. */
  lemma {:induction false} TrailingAppend(a: string, b: string)
    requires |a| > 0 && !IsTrimmed(a[|a| - 1])
    ensures TrailingTrimmed(a + b) == TrailingTrimmed(b)
    ensures TrimEnd(a + b) == a + TrimEnd(b)
    decreases |b|
  {
    if |b| == 0 {
      assert a + b == a;
    } else {
      assert (a + b)[|a + b| - 1] == b[|b| - 1];
      assert (a + b)[..|a + b| - 1] == a + b[..|b| - 1];
      TrailingAppend(a, b[..|b| - 1]);
    }
    var n := TrailingTrimmed(b);
    assert (a + b)[..|a + b| - n] == a + b[..|b| - n];
  }

  // ---------------------------------------------------------------------
  // Parsing

  /** Java's `indexOf` for a character that occurs. */
  function FirstIndex(s: string, c: char): (i: nat)
    requires c in s
    ensures i < |s| && s[i] == c
    ensures forall j :: 0 <= j < i ==> s[j] != c
    decreases |s|
  {
    if s[0] == c then 0 else 1 + FirstIndex(s[1..], c)
  }

  /** The word part of a line: the trimmed text, cut before its first
      space. It is the text itself exactly when that is trimmed and holds
      no space. */
  function FirstWord(s: string): (w: string)
    ensures ' ' !in w && |w| <= |s|
    ensures '\n' in w ==> '\n' in s
    ensures w == s <==> Trimmed(s) && ' ' !in s
  {
    var t := Trim(s);
    if ' ' in t then
      var j := FirstIndex(t, ' ');
      assert '\n' in t[..j] ==> '\n' in t;
      t[..j]
    else t
  }

  /** What every parsed entry satisfies: frequency 0, a code without
      `=` and without removable characters at its ends, a word without a
      space. */
  predicate Parsed(e: DictEntry) {
    e.frequency == 0 && '=' !in e.code && Trimmed(e.code) && ' ' !in e.word
  }

  /** One line of `parseDictionary`: after trimming, a line holding `=`
      gives an entry whose code is the trimmed text before the first `=`
      and whose word is the word part of the text after it; the frequency
      is 0. Any other line gives nothing. */
  function ParseLine(line: string): (r: Option<DictEntry>)
    ensures r.Some? <==> '=' in line
    ensures r.Some? ==> Parsed(r.value)
    ensures r.Some? && '\n' !in line ==> '\n' !in r.value.code && '\n' !in r.value.word
  {
    var l := Trim(line);
    if '=' !in l then None
    else
      var i := FirstIndex(l, '=');
      assert '\n' in l[..i] ==> '\n' in l;
      assert '\n' in l[i + 1..] ==> '\n' in l;
      Some(DictEntry(FirstWord(l[i + 1..]), Trim(l[..i]), 0))
  }

  /** No string of the list holds a line break. */
  predicate NoBreaks(ls: seq<string>) {
    forall i :: 0 <= i < |ls| ==> '\n' !in ls[i]
  }

  /** No code or word of the dictionary holds a line break. */
  predicate EntriesNoBreaks(d: seq<DictEntry>) {
    forall k :: 0 <= k < |d| ==> '\n' !in d[k].code && '\n' !in d[k].word
  }

  /** The entries of the lines that give one, in order. */
  function ParseLines(ls: seq<string>): (d: seq<DictEntry>)
    ensures forall k :: 0 <= k < |d| ==> Parsed(d[k])
    ensures NoBreaks(ls) ==> EntriesNoBreaks(d)
    decreases |ls|
  {
    if |ls| == 0 then []
    else
      var rest := ParseLines(ls[1..]);
      NoBreaksTail(ls);
      var p := ParseLine(ls[0]);
      if p.None? then rest
      else
        ParsedCons(p.value, rest);
        [p.value] + rest
  }

  lemma NoBreaksTail(ls: seq<string>)
    requires |ls| > 0
    ensures NoBreaks(ls) ==> '\n' !in ls[0] && NoBreaks(ls[1..])
  {
    if NoBreaks(ls) {
      forall i | 0 <= i < |ls| - 1 ensures '\n' !in ls[1..][i] {
        assert ls[1..][i] == ls[i + 1];
      }
    }
  }

  lemma ParsedCons(e: DictEntry, rest: seq<DictEntry>)
    requires Parsed(e) && forall k :: 0 <= k < |rest| ==> Parsed(rest[k])
    ensures forall k :: 0 <= k < |rest| + 1 ==> Parsed(([e] + rest)[k])
    ensures '\n' !in e.code && '\n' !in e.word && EntriesNoBreaks(rest) ==> EntriesNoBreaks([e] + rest)
  {
    assert forall k :: 0 < k < |rest| + 1 ==> ([e] + rest)[k] == rest[k - 1];
  }

  /** The source's `parseDictionary`: the entries of the lines of the
      text. No entry holds a line break, and every one has the properties
      of a parsed line. */
  function ParseDictionary(text: string): (d: seq<DictEntry>)
    ensures forall k :: 0 <= k < |d| ==> Parsed(d[k])
    ensures EntriesNoBreaks(d)
  {
    ParseLines(JavaSplit(text, '\n'))
  }

  // ---------------------------------------------------------------------
  // Parsing what was rendered

  /** An entry whose line parses back to its code and word: the code has
      no `=` and no removable character at its ends, the word no space
      and no removable character at its ends. */
  predicate LineSafe(e: DictEntry) {
    '=' !in e.code && Trimmed(e.code) && ' ' !in e.word && Trimmed(e.word)
  }

  /** The entries with their frequencies set to 0. */
  function Unweighted(d: seq<DictEntry>): (u: seq<DictEntry>)
    ensures |u| == |d|
    ensures forall i :: 0 <= i < |d| ==> u[i] == DictEntry(d[i].word, d[i].code, 0)
  {
    seq(|d|, i requires 0 <= i < |d| => DictEntry(d[i].word, d[i].code, 0))
  }

  /** The trimmed line of a rendered entry with a clean code, and where
      its first `=` sits. */
  lemma TrimEntryLine(e: DictEntry)
    requires '=' !in e.code && Trimmed(e.code)
    ensures var l := Trim(EntryLine(e));
            && l == e.code + "=" + TrimEnd(e.word)
            && FirstIndex(l, '=') == |e.code|
  {
    var line := EntryLine(e);
    var head := e.code + "=";
    assert line == head + e.word;
    assert line[0] == head[0];
    assert LeadingTrimmed(line) == 0;
    assert TrimStart(line) == line;
    TrailingAppend(head, e.word);
    var l := head + TrimEnd(e.word);
    assert l[|e.code|] == '=';
    assert forall j :: 0 <= j < |e.code| ==> l[j] == e.code[j];
  }

  /** The word part of a word's end-trimmed form is the word exactly when
      the word is trimmed and holds no space. */
  lemma FirstWordOfTrimEnd(w: string)
    ensures FirstWord(TrimEnd(w)) == w <==> Trimmed(w) && ' ' !in w
  {
    var x := TrimEnd(w);
    if Trimmed(w) {
      assert TrailingTrimmed(w) == 0;
      assert x == w;
    }
    if FirstWord(x) == w {
      assert |x| == |w|;
      assert x == w;
    }
  }

  /** A rendered line parses back to its code and word exactly when the
      entry is line-safe. */
  lemma ParseEntryLine(e: DictEntry)
    ensures ParseLine(EntryLine(e)) == Some(DictEntry(e.word, e.code, 0)) <==> LineSafe(e)
  {
    if '=' !in e.code && Trimmed(e.code) {
      TrimEntryLine(e);
      var l := Trim(EntryLine(e));
      var i := |e.code|;
      assert l[..i] == e.code;
      assert l[i + 1..] == TrimEnd(e.word);
      assert ParseLine(EntryLine(e)) == Some(DictEntry(FirstWord(TrimEnd(e.word)), e.code, 0));
      FirstWordOfTrimEnd(e.word);
    }
  }

  /** Every rendered line holds `=`, and a line break only when its code
      or word does. */
  lemma EntryLineChars(e: DictEntry)
    ensures '=' in EntryLine(e)
    ensures '\n' !in e.code && '\n' !in e.word ==> '\n' !in EntryLine(e)
  {
    assert EntryLine(e)[|e.code|] == '=';
  }

  /** The rendering and the lines of a non-empty dictionary start with
      its first entry's line. */
  lemma RenderCons(d: seq<DictEntry>)
    requires |d| > 0
    ensures Render(d) == EntryLine(d[0]) + "\n" + Render(d[1..])
  {
  }

  lemma LinesCons(d: seq<DictEntry>)
    requires |d| > 0
    ensures Lines(d) == [EntryLine(d[0])] + Lines(d[1..])
  {
    assert forall i :: 0 <= i < |d| - 1 ==> Lines(d[1..])[i] == EntryLine(d[i + 1]);
  }

  lemma LineAssoc(a: string, b: string, t: string)
    ensures (a + "\n" + b) + t == a + "\n" + (b + t)
  {
  }

  lemma ListAssoc(a: seq<string>, b: seq<string>, c: seq<string>)
    ensures a + (b + c) == a + b + c
  {
  }

  /** Rendered text followed by `t` splits into the entry lines and the
      pieces of `t`, when no line holds a line break. */
  lemma {:induction false} RenderSplit(d: seq<DictEntry>, t: string)
    requires forall i :: 0 <= i < |d| ==> '\n' !in EntryLine(d[i])
    ensures SplitAll(Render(d) + t, '\n') == Lines(d) + SplitAll(t, '\n')
    decreases |d|
  {
    if |d| == 0 {
      assert Render(d) + t == t;
    } else {
      var l := EntryLine(d[0]);
      var tail := d[1..];
      RenderCons(d);
      LinesCons(d);
      LineAssoc(l, Render(tail), t);
      assert '\n' !in l;
      SplitLine(l, Render(tail) + t, '\n');
      assert forall i :: 0 <= i < |tail| ==> tail[i] == d[i + 1];
      RenderSplit(tail, t);
      ListAssoc([l], Lines(tail), SplitAll(t, '\n'));
    }
  }

  /** Without line breaks in codes and words, the text of a non-empty
      dictionary splits into exactly its lines. */
  lemma SplitRender(d: seq<DictEntry>)
    requires |d| > 0 && EntriesNoBreaks(d)
    ensures JavaSplit(Render(d), '\n') == Lines(d)
  {
    forall i | 0 <= i < |d| ensures '\n' !in EntryLine(d[i]) && '=' in EntryLine(d[i]) {
      EntryLineChars(d[i]);
    }
    RenderSplit(d, "");
    assert Render(d) + "" == Render(d);
    RenderCons(d);
    assert Render(d)[|EntryLine(d[0])|] == '\n';
    SplitDropsLast(Render(d), Lines(d));
  }

  /** A text with a separator that cuts into non-empty-ending pieces and
      one final empty piece splits, Java style, into those pieces. */
  lemma SplitDropsLast(r: string, ls: seq<string>)
    requires '\n' in r && SplitAll(r, '\n') == ls + [""]
    requires |ls| > 0 && ls[|ls| - 1] != ""
    ensures JavaSplit(r, '\n') == ls
  {
    assert (ls + [""])[..|ls|] == ls;
  }

  /** A text with a separator whose last piece is not empty splits, Java
      style, into all its pieces. */
  lemma SplitKeepsLast(r: string, ls: seq<string>)
    requires '\n' in r && SplitAll(r, '\n') == ls
    requires |ls| > 0 && ls[|ls| - 1] != ""
    ensures JavaSplit(r, '\n') == ls
  {
  }

  /** The parser reads a list of lines part by part. */
  lemma {:induction false} ParseLinesAppend(a: seq<string>, b: seq<string>)
    ensures ParseLines(a + b) == ParseLines(a) + ParseLines(b)
    decreases |a|
  {
    if |a| == 0 {
      assert a + b == b;
    } else {
      assert (a + b)[1..] == a[1..] + b;
      assert (a + b)[0] == a[0];
      ParseLinesAppend(a[1..], b);
    }
  }

  /** Lines that all hold `=` each give their entry. */
  lemma {:induction false} ParseLinesAll(ls: seq<string>)
    requires forall i :: 0 <= i < |ls| ==> '=' in ls[i]
    ensures |ParseLines(ls)| == |ls|
    ensures forall i :: 0 <= i < |ls| ==> Some(ParseLines(ls)[i]) == ParseLine(ls[i])
    decreases |ls|
  {
    if |ls| > 0 {
      var tail := ls[1..];
      assert forall i :: 0 <= i < |tail| ==> tail[i] == ls[i + 1];
      ParseLinesAll(tail);
      var e := ParseLine(ls[0]).value;
      assert ParseLines(ls) == [e] + ParseLines(tail);
      PointwiseCons(ParseLine, ls[0], tail, e, ParseLines(tail));
      SeqHeadTail(ls);
    }
  }

  /** A value that `f` gives for one more item in front. */
  lemma PointwiseCons<A, B>(f: A -> Option<B>, l: A, tail: seq<A>, e: B, dt: seq<B>)
    requires f(l) == Some(e)
    requires |dt| == |tail| && forall i :: 0 <= i < |tail| ==> Some(dt[i]) == f(tail[i])
    ensures |[e] + dt| == |[l] + tail|
    ensures forall i :: 0 <= i < |[l] + tail| ==> Some(([e] + dt)[i]) == f(([l] + tail)[i])
  {
    forall i | 0 <= i < |[l] + tail| ensures Some(([e] + dt)[i]) == f(([l] + tail)[i]) {
      if i > 0 {
        assert ([e] + dt)[i] == dt[i - 1] && ([l] + tail)[i] == tail[i - 1];
      }
    }
  }

  /** The lines of line-safe entries parse back to their codes and words
      (frequencies become 0). */
  lemma ParseSafeLines(d: seq<DictEntry>)
    requires forall i :: 0 <= i < |d| ==> LineSafe(d[i])
    ensures ParseLines(Lines(d)) == Unweighted(d)
  {
    forall i | 0 <= i < |d| ensures '=' in Lines(d)[i] {
      EntryLineChars(d[i]);
    }
    ParseLinesAll(Lines(d));
    forall i | 0 <= i < |d| ensures ParseLines(Lines(d))[i] == Unweighted(d)[i] {
      ParseEntryLine(d[i]);
    }
  }

  /** Without line breaks in codes and words, the parser reads the
      rendering line by line. */
  lemma ParseRenderLines(d: seq<DictEntry>)
    requires EntriesNoBreaks(d)
    ensures |ParseDictionary(Render(d))| == |d|
    ensures forall i :: 0 <= i < |d| ==> Some(ParseDictionary(Render(d))[i]) == ParseLine(EntryLine(d[i]))
  {
    if |d| == 0 {
      assert JavaSplit(Render(d), '\n') == [""];
    } else {
      SplitRender(d);
      forall i | 0 <= i < |d| ensures '=' in Lines(d)[i] {
        EntryLineChars(d[i]);
      }
      ParseLinesAll(Lines(d));
    }
  }

  /** Parsing the rendering gives back every code and word (frequencies
      become 0) exactly when no code or word holds a line break and every
      entry is line-safe. */
  lemma ParseRender(d: seq<DictEntry>)
    ensures ParseDictionary(Render(d)) == Unweighted(d) <==>
            EntriesNoBreaks(d) && forall i :: 0 <= i < |d| ==> LineSafe(d[i])
  {
    var p := ParseDictionary(Render(d));
    var u := Unweighted(d);
    if EntriesNoBreaks(d) && forall i :: 0 <= i < |d| ==> LineSafe(d[i]) {
      if |d| == 0 {
        assert JavaSplit(Render(d), '\n') == [""];
      } else {
        SplitRender(d);
        ParseSafeLines(d);
      }
    }
    if p == u {
      forall i | 0 <= i < |d| ensures '\n' !in d[i].code && '\n' !in d[i].word {
        assert u[i].code == d[i].code && u[i].word == d[i].word;
      }
      ParseRenderLines(d);
      forall i | 0 <= i < |d| ensures LineSafe(d[i]) {
        ParseEntryLine(d[i]);
      }
    }
  }

  // ---------------------------------------------------------------------
  // Merging

  /** Index of the last entry with word `w`, or -1. */
  function LastWithWord(d: seq<DictEntry>, w: string): (i: int)
    ensures -1 <= i < |d|
    ensures i == -1 <==> w !in Words(d)
    ensures i >= 0 ==> d[i].word == w && forall j :: i < j < |d| ==> d[j].word != w
    decreases |d|
  {
    if |d| == 0 then -1
    else if d[|d| - 1].word == w then |d| - 1
    else
      WordsSnoc(d);
      LastWithWord(d[..|d| - 1], w)
  }

  /** Index of the first entry with word `w`, or -1. */
  function FirstWithWord(d: seq<DictEntry>, w: string): (i: int)
    ensures -1 <= i < |d|
    ensures i == -1 <==> w !in Words(d)
    ensures i >= 0 ==> d[i].word == w && forall j :: 0 <= j < i ==> d[j].word != w
    decreases |d|
  {
    if |d| == 0 then -1
    else
      var init := d[..|d| - 1];
      WordsSnoc(d);
      var i := FirstWithWord(init, w);
      if i >= 0 then i
      else if d[|d| - 1].word == w then |d| - 1
      else -1
  }

  /** `put` of every entry in order, keyed by word: a later entry
      replaces an earlier one. */
  function PutAll(m: map<string, DictEntry>, d: seq<DictEntry>): (r: map<string, DictEntry>)
    ensures forall w :: w in r <==> w in m || w in Words(d)
    ensures forall w :: w in Words(d) ==> r[w] == d[LastWithWord(d, w)]
    ensures forall w :: w in m && w !in Words(d) ==> r[w] == m[w]
    decreases |d|
  {
    if |d| == 0 then m
    else
      var init := d[..|d| - 1];
      var last := d[|d| - 1];
      WordsSnoc(d);
      PutAll(m, init)[last.word := last]
  }

  /** The words of a non-empty dictionary end with its last entry's. */
  lemma WordsSnoc(d: seq<DictEntry>)
    requires |d| > 0
    ensures Words(d) == Words(d[..|d| - 1]) + [d[|d| - 1].word]
  {
  }

  /** `put` of every entry whose word is not yet a key, in order: the
      first entry for a new word stays. */
  function PutAbsent(m: map<string, DictEntry>, d: seq<DictEntry>): (r: map<string, DictEntry>)
    ensures forall w :: w in r <==> w in m || w in Words(d)
    ensures forall w :: w in m ==> r[w] == m[w]
    ensures forall w :: w !in m && w in Words(d) ==> r[w] == d[FirstWithWord(d, w)]
    decreases |d|
  {
    if |d| == 0 then m
    else
      var init := d[..|d| - 1];
      var last := d[|d| - 1];
      WordsSnoc(d);
      var p := PutAbsent(m, init);
      if last.word in p then p else p[last.word := last]
  }

  /** The source's `mergeDictionaries`: one entry per word of either
      dictionary; a word of the first takes its last entry there, any
      other word its first entry in the second (first-occurrence order of
      the words stands in for the hash map's order). */
  function Merge(d1: seq<DictEntry>, d2: seq<DictEntry>): (r: seq<DictEntry>)
    ensures Distinct(Words(r))
    ensures forall w :: w in Words(r) <==> w in Words(d1) || w in Words(d2)
    ensures forall k :: 0 <= k < |r| ==>
              && (r[k].word in Words(d1) ==> r[k] == d1[LastWithWord(d1, r[k].word)])
              && (r[k].word !in Words(d1) ==> r[k] == d2[FirstWithWord(d2, r[k].word)])
  {
    var m := PutAbsent(PutAll(map[], d1), d2);
    var keys := Dedup(Words(d1) + Words(d2));
    DedupMembers(Words(d1) + Words(d2));
    var r := seq(|keys|, i requires 0 <= i < |keys| => m[keys[i]]);
    assert Words(r) == keys;
    r
  }

  // ---------------------------------------------------------------------
  // Pruning and export

  /** The source's `optimizeDictionary`: the entries whose word occurs in
      the text, in order. */
  function Optimize(d: seq<DictEntry>, text: string): (r: seq<DictEntry>)
    ensures forall e :: e in r <==> e in d && IsSubstring(e.word, text)
    decreases |d|
  {
    if |d| == 0 then []
    else
      var init := d[..|d| - 1];
      var last := d[|d| - 1];
      assert d == init + [last];
      Optimize(init, text) + (if Contains(text, last.word) then [last] else [])
  }

  /** Pruning keeps order: it distributes over concatenation. */
  lemma {:induction false} OptimizeAppend(a: seq<DictEntry>, b: seq<DictEntry>, text: string)
    ensures Optimize(a + b, text) == Optimize(a, text) + Optimize(b, text)
    decreases |b|
  {
    if |b| == 0 {
      assert a + b == a;
    } else {
      var init := b[..|b| - 1];
      assert (a + b)[..|a + b| - 1] == a + init;
      OptimizeAppend(a, init, text);
    }
  }

  /** Pruning twice against the same text prunes nothing more. */
  lemma {:induction false} OptimizeIdempotent(d: seq<DictEntry>, text: string)
    ensures Optimize(Optimize(d, text), text) == Optimize(d, text)
    decreases |d|
  {
    if |d| > 0 {
      var init := d[..|d| - 1];
      var last := d[|d| - 1];
      var tail := if Contains(text, last.word) then [last] else [];
      OptimizeIdempotent(init, text);
      OptimizeAppend(Optimize(init, text), tail, text);
      if tail == [last] {
        assert [last][..0] == [];
      }
    }
  }

  /** The line between the dictionary and the compressed text in the
      export. */
  const ExportSeparator: string := "___"

  /** The source's `exportForBot`: the rendered dictionary, a `___` line,
      then the compressed text. The compressed text closes the export
      verbatim, after one line break per entry and one for the separator. */
  function ExportForBot(d: seq<DictEntry>, compressed: string): (r: string)
    ensures |r| >= |compressed| && r[|r| - |compressed|..] == compressed
    ensures EntriesNoBreaks(d) ==> Count(r[..|r| - |compressed|], '\n') == |d| + 1
  {
    ExportHead(Render(d), ExportSeparator, compressed);
    Render(d) + (ExportSeparator + "\n" + compressed)
  }

  /** The part of `r + (sep + "\n" + t)` before `t`, and its line breaks. */
  lemma ExportHead(r: string, sep: string, t: string)
    requires '\n' !in sep
    ensures var x := r + (sep + "\n" + t);
            && x[|x| - |t|..] == t
            && x[..|x| - |t|] == r + sep + "\n"
            && Count(x[..|x| - |t|], '\n') == Count(r, '\n') + 1
  {
    CountAppend(r, sep + "\n", '\n');
    CountAppend(sep, "\n", '\n');
    CountSingle('\n', '\n');
    assert r + sep + "\n" == r + (sep + "\n");
  }

  /** When no code or word holds a line break, the export's lines are the
      entry lines, then the `___` separator line, then the lines of the
      compressed text; no entry line is the separator line. */
  lemma ExportLines(d: seq<DictEntry>, compressed: string)
    requires EntriesNoBreaks(d)
    ensures SplitAll(ExportForBot(d, compressed), '\n') == Lines(d) + [ExportSeparator] + SplitAll(compressed, '\n')
    ensures ExportSeparator !in Lines(d)
  {
    assert '\n' !in ExportSeparator && '=' !in ExportSeparator;
    ExportSplit(d, ExportSeparator, compressed);
  }

  /** The rendering followed by a separator line `sep` and the text `t`
      splits into the entry lines, `sep` and the pieces of `t`. */
  lemma ExportSplit(d: seq<DictEntry>, sep: string, t: string)
    requires EntriesNoBreaks(d) && '\n' !in sep && '=' !in sep
    ensures SplitAll(Render(d) + (sep + "\n" + t), '\n') == Lines(d) + [sep] + SplitAll(t, '\n')
    ensures sep !in Lines(d)
  {
    forall i | 0 <= i < |d| ensures '\n' !in EntryLine(d[i]) && '=' in EntryLine(d[i]) {
      EntryLineChars(d[i]);
    }
    RenderSplit(d, sep + "\n" + t);
    SplitLine(sep, t, '\n');
    ListAssoc(Lines(d), [sep], SplitAll(t, '\n'));
  }
}
