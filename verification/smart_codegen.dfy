/** The code allocator of the boundary-free codec (SmartCodeGenerator):
    the 100 symbols U+3400..U+3463, each issued at most once and only when
    absent from the text, then no code at all (the source's fallback
    returns null). */
module SmartCodeGenerator {
  import opened Wrappers
  import opened Seqs
  import opened Unicode
  import ImprovedCodeGenerator

  const CodeCount: nat := 100

  /** Entry `i` of the code table. */
  function CodeChar(i: nat): (c: char)
    requires i < CodeCount
    ensures 0x3400 <= c as int < 0x3464 && c as int - 0x3400 == i
  {
    (0x3400 + i) as char
  }

  /** The characters of the code table. */
  predicate IsCodeChar(c: char) {
    '\U{3400}' <= c <= '\U{3463}'
  }

  /** The source's `getAllCodeChars`: the table in order. */
  function AllCodeChars(): (cs: seq<char>)
    ensures |cs| == CodeCount
    ensures forall i :: 0 <= i < CodeCount ==> cs[i] == CodeChar(i)
    ensures forall c :: c in cs <==> IsCodeChar(c)
    ensures Distinct(cs)
  {
    var cs := seq(CodeCount, i requires 0 <= i < CodeCount => CodeChar(i));
    assert forall c :: IsCodeChar(c) ==> c in cs by {
      forall c | IsCodeChar(c) ensures c in cs {
        assert cs[c as int - 0x3400] == c;
      }
    }
    cs
  }

  /** The table is the primary table of the other allocator. */
  lemma AllCodeCharsArePrimary()
    ensures AllCodeChars() == ImprovedCodeGenerator.AvailableCodeChars()[..ImprovedCodeGenerator.PrimaryCount]
  {
    var a := AllCodeChars();
    var b := ImprovedCodeGenerator.AvailableCodeChars()[..ImprovedCodeGenerator.PrimaryCount];
    assert forall i :: 0 <= i < CodeCount ==> a[i] == b[i];
  }

  /** The generator: the text's characters and the table cursor. */
  datatype SGen = SGen(textChars: set<char>, index: nat)

  function New(text: string): SGen {
    SGen(CharSet(text), 0)
  }

  /** One call's result: the code (`None` for the source's null) and the
      updated generator. */
  datatype SStep = SStep(code: Option<string>, gen: SGen)

  /** The source's `findAvailableCode` scan: the first table index at or
      after `from` whose symbol is absent from the text. */
  function FindAvailable(chars: set<char>, from: nat): (r: Option<nat>)
    ensures r.Some? ==> from <= r.value < CodeCount && CodeChar(r.value) !in chars
    ensures r.Some? ==> forall j :: from <= j < r.value ==> CodeChar(j) in chars
    ensures r.None? <==> forall j :: from <= j < CodeCount ==> CodeChar(j) in chars
    decreases CodeCount - from
  {
    if from >= CodeCount then None
    else if CodeChar(from) !in chars then Some(from)
    else FindAvailable(chars, from + 1)
  }

  /** The source's `nextCode`: take the symbol under the cursor and advance;
      if the text holds it, scan on and leave the cursor after the symbol
      found, or just past the taken one when the scan fails. */
  function NextCode(g: SGen): (r: SStep)
    ensures r.gen.textChars == g.textChars
    ensures r.code.Some? ==> |r.code.value| == 1 && IsCodeChar(r.code.value[0])
  {
    if g.index >= CodeCount then SStep(None, g)
    else
      var c := CodeChar(g.index);
      if c !in g.textChars then SStep(Some([c]), g.(index := g.index + 1))
      else
        match FindAvailable(g.textChars, g.index + 1)
        case None => SStep(None, g.(index := g.index + 1))
        case Some(i) => SStep(Some([CodeChar(i)]), g.(index := i + 1))
  }

  /** The take-then-scan of `nextCode` is a single scan from the cursor:
      it returns the first table symbol at or after the cursor that is
      absent from the text and moves the cursor just past it, and it
      returns no code exactly when no such symbol remains. */
  lemma NextCodeIsFirstAbsent(g: SGen)
    ensures FindAvailable(g.textChars, g.index).Some? ==>
              var i := FindAvailable(g.textChars, g.index).value;
              NextCode(g).code == Some([CodeChar(i)]) && NextCode(g).gen.index == i + 1
    ensures FindAvailable(g.textChars, g.index).None? <==> NextCode(g).code.None?
  {
    if g.index < CodeCount && CodeChar(g.index) in g.textChars {
      assert FindAvailable(g.textChars, g.index) == FindAvailable(g.textChars, g.index + 1);
    }
  }

  /** The source's `isSafeToInsert`: a one-symbol code absent from the
      text. Such a code also passes the other allocator's `isCodeSafe`
      for the same text characters (its bigram test concerns two-symbol
      codes only), and no longer code is ever safe here. */
  predicate IsSafeToInsert(g: SGen, code: Option<string>)
    ensures IsSafeToInsert(g, code) ==> ImprovedCodeGenerator.IsCodeSafe(ImprovedCodeGenerator.Gen(g.textChars, {}, 0, 0, 0, 0), code)
    ensures code.Some? && |code.value| != 1 ==> !IsSafeToInsert(g, code)
  {
    code.Some? && |code.value| == 1 && code.value[0] !in g.textChars
  }

  /** Every code issued passes `isSafeToInsert`, and the cursor only
      advances, past the issued symbol. */
  lemma NextCodeSafe(g: SGen)
    ensures NextCode(g).code.Some? ==> IsSafeToInsert(g, NextCode(g).code)
    ensures NextCode(g).code.Some? ==> g.index <= NextCode(g).code.value[0] as int - 0x3400 < NextCode(g).gen.index
    ensures g.index <= NextCode(g).gen.index
  {
    NextCodeIsFirstAbsent(g);
  }

  /** Once the generator returns no code it never returns one again. */
  lemma NullStaysNull(g: SGen)
    requires NextCode(g).code.None?
    ensures NextCode(NextCode(g).gen).code.None?
  {
    NextCodeIsFirstAbsent(g);
    var g1 := NextCode(g).gen;
    NextCodeIsFirstAbsent(g1);
    assert g1.textChars == g.textChars && g.index <= g1.index;
  }

  /** `n` successive calls. */
  function Run(g: SGen, n: nat): (steps: seq<SStep>)
    ensures |steps| == n
    decreases n
  {
    if n == 0 then [] else var s := NextCode(g); [s] + Run(s.gen, n - 1)
  }

  /** After the first null, every later call returns null. */
  lemma {:induction false} NullForever(g: SGen, n: nat)
    requires NextCode(g).code.None?
    ensures forall i :: 0 <= i < n ==> Run(g, n)[i].code.None?
    decreases n
  {
    if n > 0 {
      NullStaysNull(g);
      NullForever(NextCode(g).gen, n - 1);
      assert forall i :: 0 < i < n ==> Run(g, n)[i] == Run(NextCode(g).gen, n - 1)[i - 1];
    }
  }

  /** The table symbols at or after `from` that are absent from the text,
      in table order: what the generator issues from cursor `from`. */
  function Absent(chars: set<char>, from: nat): (r: seq<string>)
    ensures forall k :: 0 <= k < |r| ==> |r[k]| == 1 && IsCodeChar(r[k][0]) && r[k][0] !in chars
    ensures forall k :: 0 <= k < |r| ==> from <= r[k][0] as int - 0x3400
    decreases CodeCount - from
  {
    if from >= CodeCount then []
    else if CodeChar(from) !in chars then [[CodeChar(from)]] + Absent(chars, from + 1)
    else Absent(chars, from + 1)
  }

  /** Every code the generator issues from `g` until its first null. */
  function IssueAll(g: SGen): (codes: seq<string>)
    decreases CodeCount - g.index
  {
    var s := NextCode(g);
    if s.code.None? then []
    else
      NextCodeSafe(g);
      [s.code.value] + IssueAll(s.gen)
  }

  /** Absent symbols from `from` are those of the first absent index and
      the ones after it. */
  lemma {:induction false} AbsentFrom(chars: set<char>, from: nat)
    ensures FindAvailable(chars, from).None? ==> Absent(chars, from) == []
    ensures FindAvailable(chars, from).Some? ==>
              var i := FindAvailable(chars, from).value;
              Absent(chars, from) == [[CodeChar(i)]] + Absent(chars, i + 1)
    decreases CodeCount - from
  {
    if from < CodeCount && CodeChar(from) in chars {
      AbsentFrom(chars, from + 1);
    }
  }

  /** The generator issues exactly the absent table symbols in table
      order. */
  lemma {:induction false} IssueAllIsAbsent(g: SGen)
    ensures IssueAll(g) == Absent(g.textChars, g.index)
    decreases CodeCount - g.index
  {
    NextCodeIsFirstAbsent(g);
    AbsentFrom(g.textChars, g.index);
    var s := NextCode(g);
    if s.code.Some? {
      NextCodeSafe(g);
      IssueAllIsAbsent(s.gen);
    }
  }

  /** No symbol is issued twice: issued symbols are strictly increasing. */
  lemma {:induction false} AbsentIncreasing(chars: set<char>, from: nat)
    ensures forall k, l :: 0 <= k < l < |Absent(chars, from)| ==>
              Absent(chars, from)[k][0] < Absent(chars, from)[l][0]
    decreases CodeCount - from
  {
    if from < CodeCount {
      AbsentIncreasing(chars, from + 1);
    }
  }

  /** The table symbols at or after `from` that the text holds. */
  ghost function PresentFrom(chars: set<char>, from: nat): set<char>
    decreases CodeCount - from
  {
    if from >= CodeCount then {}
    else (if CodeChar(from) in chars then {CodeChar(from)} else {}) + PresentFrom(chars, from + 1)
  }

  lemma {:induction false} PresentFromMembers(chars: set<char>, from: nat)
    ensures forall c :: c in PresentFrom(chars, from) <==> c in chars && IsCodeChar(c) && from <= c as int - 0x3400
    decreases CodeCount - from
  {
    if from < CodeCount {
      PresentFromMembers(chars, from + 1);
    }
  }

  /** From cursor `from`, absent and present symbols together fill the
      rest of the table. */
  lemma {:induction false} AbsentCount(chars: set<char>, from: nat)
    requires from <= CodeCount
    ensures |Absent(chars, from)| + |PresentFrom(chars, from)| == CodeCount - from
    decreases CodeCount - from
  {
    if from < CodeCount {
      AbsentCount(chars, from + 1);
      FirstNotLater(chars, from);
      CardStep(CodeChar(from), CodeChar(from) in chars, PresentFrom(chars, from + 1));
    }
  }

  lemma CardStep(c: char, present: bool, rest: set<char>)
    requires c !in rest
    ensures |(if present then {c} else {}) + rest| == |rest| + (if present then 1 else 0)
  {
    if !present {
      assert {} + rest == rest;
    }
  }

  lemma FirstNotLater(chars: set<char>, from: nat)
    requires from < CodeCount
    ensures CodeChar(from) !in PresentFrom(chars, from + 1)
  {
    PresentFromMembers(chars, from + 1);
  }

  /** The present symbols from the start of the table are the table
      symbols of the text. */
  lemma PresentFromStart(chars: set<char>)
    ensures PresentFrom(chars, 0) == set c | c in chars && IsCodeChar(c)
  {
    PresentFromMembers(chars, 0);
  }

  /** A fresh generator for `text` issues, in table order and without
      repeats, exactly the table symbols absent from the text: 100 minus
      the number of table symbols the text holds. */
  lemma FreshGeneratorIssues(text: string)
    ensures IssueAll(New(text)) == Absent(CharSet(text), 0)
    ensures |IssueAll(New(text))| == CodeCount - |set c | c in CharSet(text) && IsCodeChar(c)|
    ensures forall k, l :: 0 <= k < l < |IssueAll(New(text))| ==> IssueAll(New(text))[k] != IssueAll(New(text))[l]
  {
    var chars := CharSet(text);
    IssueAllIsAbsent(New(text));
    AbsentCount(chars, 0);
    PresentFromStart(chars);
    AbsentIncreasing(chars, 0);
  }
}
