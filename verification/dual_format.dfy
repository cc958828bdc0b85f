/** DualFormatBuilder: the two message layouts built around a
    compressed text. The quick message puts the compressed text on one
    line and at most five `code→word` pairs after it; the dual message
    frames the compressed text, a mini-dictionary of at most ten entries
    in rows of five, and the full text inside a comment. */
module DualFormatBuilder {
  import opened Seqs
  import opened Model

  function Min(a: int, b: int): int {
    if a <= b then a else b
  }

  // ---------------------------------------------------------------------
  // Quick message

  const QuickTextLabel: string := "【СЖАТО】: "
  const QuickDictLabel: string := "【СЛОВАРЬ】: "

  /** One pair of the quick message. */
  function Arrow(e: DictEntry): string {
    e.code + "→" + e.word
  }

  /** The loop of `buildQuickMessage` from entry `i` on: each pair,
      followed by `, ` unless it is the last one listed. */
  function QuickFrom(d: seq<DictEntry>, i: nat, limit: nat): string
    requires i <= limit <= |d|
    decreases limit - i
  {
    if i == limit then ""
    else Arrow(d[i]) + (if i < limit - 1 then ", " else "") + QuickFrom(d, i + 1, limit)
  }

  /** The source's `buildQuickMessage`: the compressed text follows the
      text label verbatim and ends the first line. */
  function QuickMessage(compressed: string, d: seq<DictEntry>): (r: string)
    ensures var n := |QuickTextLabel|;
            && |r| > n + |compressed|
            && r[..n] == QuickTextLabel
            && r[n..n + |compressed|] == compressed
            && r[n + |compressed|] == '\n'
  {
    QuickTextLabel + compressed + "\n" + QuickDictLabel + QuickFrom(d, 0, Min(5, |d|))
  }

  /** The pairs of a list of entries. */
  function Arrows(es: seq<DictEntry>): (r: seq<string>)
    ensures |r| == |es|
    ensures forall i :: 0 <= i < |es| ==> r[i] == Arrow(es[i])
  {
    seq(|es|, i requires 0 <= i < |es| => Arrow(es[i]))
  }

  /** The loop lists entries `i` up to `limit` joined by `, `. */
  lemma {:induction false} QuickFromJoin(d: seq<DictEntry>, i: nat, limit: nat)
    requires i <= limit <= |d|
    ensures QuickFrom(d, i, limit) == Join(Arrows(d[i..limit]), ", ")
    decreases limit - i
  {
    if i < limit {
      QuickFromJoin(d, i + 1, limit);
      var ps := Arrows(d[i..limit]);
      assert ps[0] == Arrow(d[i]);
      assert Arrows(d[i + 1..limit]) == ps[1..];
    }
  }

  /** The quick message is the compressed text on the first line, then
      the first five entries (fewer if the dictionary is shorter) as
      `code→word` pairs joined by `, `. */
  lemma QuickMessageLayout(compressed: string, d: seq<DictEntry>)
    ensures QuickMessage(compressed, d) ==
            QuickTextLabel + compressed + "\n" + QuickDictLabel + Join(Arrows(d[..Min(5, |d|)]), ", ")
  {
    QuickFromJoin(d, 0, Min(5, |d|));
    assert d[0..Min(5, |d|)] == d[..Min(5, |d|)];
  }

  /** Only the first five entries reach the quick message. */
  lemma QuickMessageFirstFive(compressed: string, d: seq<DictEntry>)
    ensures QuickMessage(compressed, d) == QuickMessage(compressed, d[..Min(5, |d|)])
  {
    var e := d[..Min(5, |d|)];
    QuickMessageLayout(compressed, d);
    QuickMessageLayout(compressed, e);
    assert e[..Min(5, |e|)] == e;
  }

  // ---------------------------------------------------------------------
  // Mini-dictionary

  /** One item of the mini-dictionary. */
  function Pair(e: DictEntry): string {
    e.code + " = " + e.word
  }

  function Pairs(es: seq<DictEntry>): (r: seq<string>)
    ensures |r| == |es|
    ensures forall i :: 0 <= i < |es| ==> r[i] == Pair(es[i])
  {
    seq(|es|, i requires 0 <= i < |es| => Pair(es[i]))
  }

  /** What follows item `i`: ` | ` unless it is the last, then a line
      break after every fifth item. */
  function After(i: nat, limit: nat): string {
    (if i < limit - 1 then " | " else "") + (if (i + 1) % 5 == 0 then "\n" else "")
  }

  /** No code or word among entries `i` up to `limit` holds a line
      break. */
  predicate NoBreaksIn(d: seq<DictEntry>, i: nat, limit: nat)
    requires i <= limit <= |d|
  {
    forall k :: i <= k < limit ==> '\n' !in d[k].code && '\n' !in d[k].word
  }

  /** The mini-dictionary loop of `buildDualMessage` from item `i` on: it
      breaks the line after every item whose position is a multiple of
      five. */
  function MiniFrom(d: seq<DictEntry>, i: nat, limit: nat): (r: string)
    requires i <= limit <= |d|
    ensures NoBreaksIn(d, i, limit) ==> Count(r, '\n') == limit / 5 - i / 5
    decreases limit - i
  {
    if i == limit then ""
    else
      var rest := MiniFrom(d, i + 1, limit);
      var r := Pair(d[i]) + After(i, limit) + rest;
      if NoBreaksIn(d, i, limit) then
        PairCount(d[i]);
        AfterCount(i, limit);
        CountAppend(Pair(d[i]) + After(i, limit), rest, '\n');
        CountAppend(Pair(d[i]), After(i, limit), '\n');
        r
      else r
  }

  lemma PairCount(e: DictEntry)
    requires '\n' !in e.code && '\n' !in e.word
    ensures Count(Pair(e), '\n') == 0
  {
    assert forall c :: c in Pair(e) ==> c in e.code || c in " = " || c in e.word;
  }

  lemma AfterCount(i: nat, limit: nat)
    ensures Count(After(i, limit), '\n') == (i + 1) / 5 - i / 5
  {
    var sep := if i < limit - 1 then " | " else "";
    var br := if (i + 1) % 5 == 0 then "\n" else "";
    CountAppend(sep, br, '\n');
    CountSingle('\n', '\n');
    assert Count(sep, '\n') == 0;
  }

  /** The mini-dictionary: the first ten entries (fewer if the dictionary
      is shorter), with a line break after the fifth and the tenth. */
  function MiniDictionary(d: seq<DictEntry>): (r: string)
    ensures |d| == 0 ==> r == ""
    ensures NoBreaksIn(d, 0, |d|) ==> Count(r, '\n') == Min(10, |d|) / 5
  {
    MiniFrom(d, 0, Min(10, |d|))
  }

  /** Items `i` up to `e`, all but the last followed by a bare ` | `, form
      one row joined by ` | `; the loop goes on after the row's last
      item. */
  lemma {:induction false} RowPrefix(d: seq<DictEntry>, i: nat, e: nat, limit: nat)
    requires i < e <= limit <= |d|
    requires forall k :: i <= k < e - 1 ==> After(k, limit) == " | "
    ensures MiniFrom(d, i, limit) == Join(Pairs(d[i..e]), " | ") + (After(e - 1, limit) + MiniFrom(d, e, limit))
    decreases e - i
  {
    var ps := Pairs(d[i..e]);
    var t := After(e - 1, limit) + MiniFrom(d, e, limit);
    if e > i + 1 {
      RowPrefix(d, i + 1, e, limit);
      assert ps[0] == Pair(d[i]);
      assert Pairs(d[i + 1..e]) == ps[1..];
      Regroup(Pair(d[i]) + " | ", Join(ps[1..], " | "), t);
    } else {
      assert ps == [Pair(d[i])];
      Regroup(Pair(d[i]), After(i, limit), MiniFrom(d, e, limit));
    }
  }

  lemma Regroup(a: string, b: string, c: string)
    ensures a + (b + c) == a + b + c
  {
  }

  /** Every item of a row of five but the last is followed by a bare
      ` | `. */
  lemma InsideRow(k: nat, limit: nat)
    requires k % 5 < 4 && k < limit - 1
    ensures After(k, limit) == " | "
  {
    assert (k + 1) % 5 == k % 5 + 1;
  }

  /** The mini-dictionary as rows of at most five items joined by ` | `:
      a full first row ends with a line break, after ` | ` when a second
      row follows, and a full second row ends with a line break too. */
  function MiniLayout(es: seq<DictEntry>): string
    requires |es| <= 10
  {
    if |es| < 5 then Join(Pairs(es), " | ")
    else
      Join(Pairs(es[..5]), " | ") + (if |es| > 5 then " | " else "") + "\n"
      + Join(Pairs(es[5..]), " | ") + (if |es| == 10 then "\n" else "")
  }

  /** The loop lays the first ten entries out in rows of five. */
  lemma MiniDictionaryLayout(d: seq<DictEntry>)
    ensures MiniDictionary(d) == MiniLayout(d[..Min(10, |d|)])
  {
    var n := Min(10, |d|);
    if 0 < n < 5 {
      ShortMini(d, n);
    } else if n == 5 {
      OneRowMini(d, n);
    } else if n > 5 {
      TwoRowMini(d, n);
    }
  }

  /** Fewer than five entries make one row without a line break. */
  lemma ShortMini(d: seq<DictEntry>, n: nat)
    requires 0 < n < 5 && n <= |d|
    ensures MiniFrom(d, 0, n) == Join(Pairs(d[..n]), " | ")
  {
    forall k | 0 <= k < n - 1 ensures After(k, n) == " | " {
      InsideRow(k, n);
    }
    RowPrefix(d, 0, n, n);
    assert d[0..n] == d[..n];
    assert After(n - 1, n) == "" + "";
  }

  /** Exactly five entries make one row ending in a line break. */
  lemma OneRowMini(d: seq<DictEntry>, n: nat)
    requires n == 5 && n <= |d|
    ensures MiniFrom(d, 0, n) == MiniLayout(d[..n])
  {
    FirstRowSeparators(n);
    RowPrefix(d, 0, n, n);
    var es := d[..n];
    assert d[0..n] == es[..5];
    assert Pairs(es[5..]) == [];
    OneRow(Join(Pairs(es[..5]), " | "), Join(Pairs(es[5..]), " | "), After(n - 1, n), MiniFrom(d, n, n));
  }

  /** The first four items of a list of at least five are followed by a
      bare ` | `, and the fifth by ` | ` and a line break exactly when
      more follow. */
  lemma FirstRowSeparators(limit: nat)
    requires limit >= 5
    ensures forall k :: 0 <= k < 4 ==> After(k, limit) == " | "
    ensures After(4, limit) == (if limit > 5 then " | " else "") + "\n"
  {
    forall k | 0 <= k < 4 ensures After(k, limit) == " | " {
      InsideRow(k, limit);
    }
  }

  lemma OneRow(j1: string, j2: string, a: string, m: string)
    requires j2 == "" && a == "" + "\n" && m == ""
    ensures j1 + (a + m) == j1 + "" + "\n" + j2 + ""
  {
  }

  /** Six to ten entries make a first row of five, ending in ` | ` and a
      line break, and a second row that ends in a line break when full. */
  lemma TwoRowMini(d: seq<DictEntry>, n: nat)
    requires 5 < n <= 10 && n <= |d|
    ensures MiniFrom(d, 0, n) == MiniLayout(d[..n])
  {
    FirstRowSeparators(n);
    SecondRowSeparators(n);
    RowPrefix(d, 0, 5, n);
    RowPrefix(d, 5, n, n);
    var es := d[..n];
    assert d[0..5] == es[..5] && d[5..n] == es[5..];
    TwoRows(Join(Pairs(es[..5]), " | "), Join(Pairs(es[5..]), " | "), After(n - 1, n));
  }

  /** In a second row, every item but the last is followed by a bare
      ` | `, and the last by a line break only when it is the tenth. */
  lemma SecondRowSeparators(n: nat)
    requires 5 < n <= 10
    ensures forall k :: 5 <= k < n - 1 ==> After(k, n) == " | "
    ensures After(n - 1, n) == (if n == 10 then "\n" else "")
  {
    forall k | 5 <= k < n - 1 ensures After(k, n) == " | " {
      InsideRow(k, n);
    }
    assert After(n - 1, n) == "" + (if n % 5 == 0 then "\n" else "");
    assert n % 5 == 0 <==> n == 10;
  }

  lemma TwoRows(j1: string, j2: string, last: string)
    ensures j1 + ((" | " + "\n") + (j2 + (last + ""))) == j1 + " | " + "\n" + j2 + last
  {
  }

  // ---------------------------------------------------------------------
  // Dual message

  const BoxTop: string := "╔══════════════════════════════════════════════╗\n"
  const BoxBottom: string := "╚══════════════════════════════════════════════╝\n"
  const SavingsOpen: string := "║           СЖАТЫЙ ТЕКСТ (экономия "
  const SavingsClose: string := "%)          ║\n"
  const MiniTitle: string := "║             МИНИ-СЛОВАРЬ (ключ)              ║\n"
  const FullTitle: string := "║        ПОЛНЫЙ ТЕКСТ (для справки)            ║\n"

  /** The number a string of decimal digits denotes. */
  function DigitsValue(s: string): int
    decreases |s|
  {
    if |s| == 0 then 0 else 10 * DigitsValue(s[..|s| - 1]) + (s[|s| - 1] as int - '0' as int)
  }

  /** Java's decimal rendering of an `int`: the digits of the magnitude,
      with no leading zero, after a minus sign for a negative number. */
  function Decimal(n: int): (r: string)
    ensures |r| > 0
    ensures forall i :: 0 <= i < |r| ==> '0' <= r[i] <= '9' || (i == 0 && r[i] == '-' && n < 0)
    ensures n >= 0 ==> DigitsValue(r) == n && (r[0] == '0' <==> n == 0)
    ensures n == 0 ==> r == "0"
    ensures n < 0 ==> r[0] == '-' && |r| > 1 && DigitsValue(r[1..]) == -n && r[1] != '0'
    decreases if n < 0 then 1 - n else n
  {
    if n < 0 then
      var r := "-" + Decimal(-n);
      assert r[1..] == Decimal(-n);
      r
    else if n < 10 then
      var r := [('0' as int + n) as char];
      assert r[..0] == "";
      r
    else
      var head := Decimal(n / 10);
      var r := head + [('0' as int + n % 10) as char];
      assert r[..|r| - 1] == head;
      r
  }

  /** The banner of the compressed text, which reports the savings. */
  function Head(savings: int): string {
    BoxTop + SavingsOpen + Decimal(savings) + (SavingsClose + BoxBottom)
  }

  /** A message framed as the source frames it: a head, the compressed
      text and a blank line, the middle part, then the full text between
      a `/*` line and a `*/` line. */
  function Frame(head: string, compressed: string, middle: string, full: string): string {
    head + compressed + "\n\n" + middle + "/*\n" + full + "\n*/\n"
  }

  /** Between the compressed text and the full text: the mini-dictionary
      banner, the mini-dictionary, a blank line and the full-text
      banner. */
  function Middle(d: seq<DictEntry>): string {
    BoxTop + MiniTitle + BoxBottom + MiniDictionary(d) + "\n\n" + BoxTop + FullTitle + BoxBottom
  }

  /** The source's `buildDualMessage`. The savings percentage, computed
      there in floating point, is a parameter; its decimal form follows
      the savings label of the banner, and the full text closes the
      message verbatim before the comment's end. */
  function DualMessage(compressed: string, d: seq<DictEntry>, full: string, savings: int): (r: string)
    ensures var p := |BoxTop + SavingsOpen|;
            && |r| >= p + |Decimal(savings)| + |full| + 4
            && r[..p] == BoxTop + SavingsOpen
            && r[p..p + |Decimal(savings)|] == Decimal(savings)
            && r[|r| - |full| - 4..|r| - 4] == full
            && r[|r| - 4..] == "\n*/\n"
  {
    FramedFigure(BoxTop + SavingsOpen, Decimal(savings), SavingsClose + BoxBottom, compressed, Middle(d), full);
    Frame(Head(savings), compressed, Middle(d), full)
  }

  /** Where a figure between an opening `a` and a closing `b` of the head
      sits in a framed message, and where the full text sits. */
  lemma FramedFigure(a: string, x: string, b: string, c: string, middle: string, full: string)
    ensures var r := Frame(a + x + b, c, middle, full);
            && |r| >= |a| + |x| + |full| + 4
            && r[..|a|] == a
            && r[|a|..|a| + |x|] == x
            && r[|r| - |full| - 4..|r| - 4] == full
            && r[|r| - 4..] == "\n*/\n"
  {
    Framed(a + x + b, c, middle, full);
  }

  /** The compressed text appears verbatim right after the banner,
      followed by a blank line, and the full text appears verbatim at the
      very end, between a `/*` line and a `*/` line. */
  lemma DualMessageParts(compressed: string, d: seq<DictEntry>, full: string, savings: int)
    ensures var m, h := DualMessage(compressed, d, full, savings), |Head(savings)|;
            && |m| >= h + |compressed| + 2 + 3 + |full| + 4
            && m[..h] == Head(savings)
            && m[h..h + |compressed|] == compressed
            && m[h + |compressed|..h + |compressed| + 2] == "\n\n"
            && m[|m| - |full| - 7..|m| - |full| - 4] == "/*\n"
            && m[|m| - |full| - 4..|m| - 4] == full
            && m[|m| - 4..] == "\n*/\n"
  {
    Framed(Head(savings), compressed, Middle(d), full);
  }

  /** Where the parts of a framed message sit. */
  lemma Framed(h: string, c: string, middle: string, full: string)
    ensures var m := Frame(h, c, middle, full);
            && |m| >= |h| + |c| + 2 + 3 + |full| + 4
            && m[..|h|] == h
            && m[|h|..|h| + |c|] == c
            && m[|h| + |c|..|h| + |c| + 2] == "\n\n"
            && m[|m| - |full| - 7..|m| - |full| - 4] == "/*\n"
            && m[|m| - |full| - 4..|m| - 4] == full
            && m[|m| - 4..] == "\n*/\n"
  {
  }

  /** Only the first ten entries reach the dual message. */
  lemma DualMessageFirstTen(compressed: string, d: seq<DictEntry>, full: string, savings: int)
    ensures DualMessage(compressed, d, full, savings) == DualMessage(compressed, d[..Min(10, |d|)], full, savings)
  {
    var e := d[..Min(10, |d|)];
    MiniDictionaryLayout(d);
    MiniDictionaryLayout(e);
    assert e[..Min(10, |e|)] == e;
  }
}
