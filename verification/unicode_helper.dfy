/** UnicodeHelper: the code-range test and the sequential code generator
    over CJK Extension A, U+3400..U+4DBF, which issues every symbol of the
    range in turn with no check against the text. */
module UnicodeHelper {
  import opened Wrappers

  const CodeStart: char := '\U{3400}'
  const RangeEnd: char := '\U{4DBF}'

  /** Number of symbols in U+3400..U+4DBF. */
  const RangeSize: nat := 0x4DBF - 0x3400 + 1

  /** The source's `isValidCodeChar`, as written: the upper bound is
      exclusive. */
  predicate IsValidCodeChar(c: char)
    ensures IsValidCodeChar(c) <==> IsInCodeRange(c) && c != RangeEnd
  {
    CodeStart <= c < RangeEnd
  }

  /** The range test with the inclusive upper bound that the range
      U+3400..U+4DBF calls for. */
  predicate IsInCodeRange(c: char) {
    CodeStart <= c <= RangeEnd
  }

  /** The generator holds the next code to issue. */
  datatype CodeGen = CodeGen(current: char)

  /** A new generator, and the source's `reset`. */
  function New(): (g: CodeGen)
    ensures g.current == CodeStart
  {
    CodeGen(CodeStart)
  }

  function Reset(g: CodeGen): (r: CodeGen)
    ensures r == New()
  {
    CodeGen(CodeStart)
  }

  /** The source's `getCurrentCode`. */
  function GetCurrentCode(g: CodeGen): char {
    g.current
  }

  /** One call's result: the code (`None` for the IllegalStateException)
      and the updated generator. */
  datatype Step = Step(code: Option<string>, gen: CodeGen)

  /** The source's `nextCode`: the current symbol, advancing by one; no
      code once the cursor has passed U+4DBF. */
  function NextCode(g: CodeGen): (r: Step)
    ensures r.code.None? <==> g.current > RangeEnd
    ensures r.code.None? ==> r.gen == g
    ensures r.code.Some? ==> r.code.value == [GetCurrentCode(g)]
    ensures r.code.Some? ==> GetCurrentCode(r.gen) as int == GetCurrentCode(g) as int + 1
  {
    if g.current > RangeEnd then Step(None, g)
    else Step(Some([g.current]), CodeGen((g.current as int + 1) as char))
  }

  /** Every code issued from `g` until the generator throws. */
  function IssueAll(g: CodeGen): (codes: seq<string>)
    decreases 0x4DC0 - g.current as int
  {
    var s := NextCode(g);
    if s.code.None? then [] else [s.code.value] + IssueAll(s.gen)
  }

  /** From a cursor inside the range, the generator issues each remaining
      symbol of the range once, in increasing order, and nothing else. */
  lemma {:induction false} IssueAllFrom(g: CodeGen)
    ensures g.current <= RangeEnd ==> |IssueAll(g)| == 0x4DC0 - g.current as int
    ensures g.current > RangeEnd ==> IssueAll(g) == []
    ensures forall k :: 0 <= k < |IssueAll(g)| ==>
              |IssueAll(g)[k]| == 1 && IssueAll(g)[k][0] as int == g.current as int + k
    decreases 0x4DC0 - g.current as int
  {
    var s := NextCode(g);
    if s.code.Some? {
      IssueAllFrom(s.gen);
      assert IssueAll(g) == [s.code.value] + IssueAll(s.gen);
    }
  }

  /** A fresh generator issues exactly U+3400..U+4DBF, 6592 codes, strictly
      increasing, and every one of them lies in the range. */
  lemma FreshGeneratorIssues()
    ensures |IssueAll(New())| == RangeSize == 6592
    ensures forall k :: 0 <= k < |IssueAll(New())| ==>
              |IssueAll(New())[k]| == 1 && IssueAll(New())[k][0] as int == 0x3400 + k
    ensures forall k, l :: 0 <= k < l < |IssueAll(New())| ==> IssueAll(New())[k][0] < IssueAll(New())[l][0]
    ensures forall k :: 0 <= k < |IssueAll(New())| ==> IsInCodeRange(IssueAll(New())[k][0])
  {
    IssueAllFrom(New());
  }

  /** The last code a fresh generator issues, U+4DBF, fails the source's
      range test, while every earlier one passes it. */
  lemma LastIssuedCodeRejected()
    ensures var codes := IssueAll(New());
            && |codes| == 6592
            && codes[6591] == [RangeEnd]
            && !IsValidCodeChar(codes[6591][0])
            && forall k :: 0 <= k < 6591 ==> |codes[k]| == 1 && IsValidCodeChar(codes[k][0])
  {
    FreshGeneratorIssues();
  }
}
