/** Sequence and string helpers shared by the codec: occurrence counting,
    first-occurrence deduplication, substring search, concatenation of
    token values and a stable descending sort by an integer key. */
module Seqs {

  /** Number of positions of `s` holding `x`. */
  function Count<T(==)>(s: seq<T>, x: T): (n: nat)
    ensures n <= |s|
    ensures n > 0 <==> x in s
    decreases |s|
  {
    if |s| == 0 then 0
    else Count(s[..|s| - 1], x) + (if s[|s| - 1] == x then 1 else 0)
  }

  lemma {:induction false} CountAppend<T>(a: seq<T>, b: seq<T>, x: T)
    ensures Count(a + b, x) == Count(a, x) + Count(b, x)
    decreases |b|
  {
    if |b| == 0 {
      assert a + b == a;
    } else {
      assert (a + b)[..|a + b| - 1] == a + b[..|b| - 1];
      CountAppend(a, b[..|b| - 1], x);
    }
  }

  /** Cutting a sequence and gluing the halves gives it back. */
  lemma SliceSplit<T>(s: seq<T>, k: nat)
    requires k <= |s|
    ensures s[..k] + s[k..] == s
  {
  }

  lemma AppendSplit<T>(done: seq<T>, rest: seq<T>, k: nat)
    requires k <= |rest|
    ensures done + rest[..k] + rest[k..] == done + rest
  {
  }

  lemma AppendHead<T>(done: seq<T>, rest: seq<T>)
    requires |rest| > 0
    ensures done + [rest[0]] + rest[1..] == done + rest
  {
  }

  lemma SeqHeadTail<T>(s: seq<T>)
    requires |s| > 0
    ensures [s[0]] + s[1..] == s
  {
  }

  lemma ConsIndex<T>(x: T, rest: seq<T>, k: nat)
    requires 0 < k <= |rest|
    ensures ([x] + rest)[k] == rest[k - 1]
  {
  }

  /** Counting in a prefix one element longer. */
  lemma CountPrefix<T>(s: seq<T>, k: nat, x: T)
    requires 0 < k <= |s|
    ensures Count(s[..k], x) == Count(s[..k - 1], x) + (if s[k - 1] == x then 1 else 0)
  {
    assert s[..k][..k - 1] == s[..k - 1];
  }

  lemma CountSingle<T>(y: T, x: T)
    ensures Count([y], x) == if y == x then 1 else 0
  {
    assert [y][..0] == [];
  }

  /** The elements of `s` in order of first occurrence, each once (the
      iteration order the model uses wherever the source iterates a hash
      map or hash set, whose order Java leaves unspecified). */
  function Dedup<T(==)>(s: seq<T>): (r: seq<T>)
    ensures forall i :: 0 <= i < |s| ==> s[i] in r
    ensures forall i :: 0 <= i < |r| ==> r[i] in s
    ensures Distinct(r)
    ensures |r| <= |s|
    decreases |s|
  {
    if |s| == 0 then []
    else
      var prev := Dedup(s[..|s| - 1]);
      if s[|s| - 1] in prev then prev else prev + [s[|s| - 1]]
  }

  /** Deduplication keeps exactly the elements it was given. */
  lemma DedupMembers<T>(s: seq<T>)
    ensures forall x :: x in Dedup(s) <==> x in s
  {
    forall x ensures x in Dedup(s) <==> x in s {
      if x in s {
        var i :| 0 <= i < |s| && s[i] == x;
      }
    }
  }

  predicate Distinct<T(==)>(s: seq<T>) {
    forall i, j :: 0 <= i < j < |s| ==> s[i] != s[j]
  }

  /** In a list without repeats every element occurs at most once. */
  lemma {:induction false} DistinctAtMostOnce<T>(s: seq<T>)
    requires Distinct(s)
    ensures forall x :: multiset(s)[x] <= 1
    decreases |s|
  {
    if |s| > 0 {
      var init := s[..|s| - 1];
      assert s == init + [s[|s| - 1]];
      DistinctAtMostOnce(init);
      assert s[|s| - 1] !in init;
    }
  }

  /** A rearrangement of a list without repeats has no repeats. */
  lemma DistinctPermutation<T>(a: seq<T>, b: seq<T>)
    requires Distinct(a) && multiset(a) == multiset(b)
    ensures Distinct(b)
  {
    DistinctAtMostOnce(a);
    forall i, j | 0 <= i < j < |b| ensures b[i] != b[j] {
      assert b == b[..j] + b[j..];
      assert b[i] in b[..j] && b[j] in b[j..];
      assert multiset(b)[b[i]] == multiset(b[..j])[b[i]] + multiset(b[j..])[b[i]];
      assert multiset(b)[b[j]] == multiset(b[..j])[b[j]] + multiset(b[j..])[b[j]];
    }
  }

  /** `part` occurs in `text` starting at index `i`. */
  predicate OccursAt(part: string, text: string, i: int) {
    0 <= i <= |text| - |part| && text[i..i + |part|] == part
  }

  /** True iff `part` occurs in `text` as a contiguous block (Java's
      String.contains / indexOf(part) >= 0). */
  ghost predicate IsSubstring(part: string, text: string) {
    exists i :: OccursAt(part, text, i)
  }

  /** Executable left-to-right search, equal to IsSubstring. */
  function Contains(text: string, part: string): (b: bool)
    ensures b <==> IsSubstring(part, text)
    decreases |text|
  {
    if |part| > |text| then false
    else if text[..|part|] == part then
      assert OccursAt(part, text, 0);
      true
    else
      var r := Contains(text[1..], part);
      ContainsShift(text, part, r);
      r
  }

  lemma ContainsShift(text: string, part: string, r: bool)
    requires |part| <= |text| && text[..|part|] != part
    requires r <==> IsSubstring(part, text[1..])
    ensures r <==> IsSubstring(part, text)
  {
    if IsSubstring(part, text) {
      var i :| OccursAt(part, text, i);
      assert i != 0;
      TailSlice(text, i, |part|);
      assert OccursAt(part, text[1..], i - 1);
    }
    if r {
      var i :| OccursAt(part, text[1..], i);
      TailSlice(text, i + 1, |part|);
      assert OccursAt(part, text, i + 1);
    }
  }

  /** A block of the tail is the block one further along in the whole. */
  lemma TailSlice(text: string, i: int, n: nat)
    requires 1 <= i && i + n <= |text|
    ensures text[1..][i - 1..i - 1 + n] == text[i..i + n]
  {
  }

  /** Every string contains itself. */
  lemma SubstringRefl(s: string)
    ensures IsSubstring(s, s)
  {
    assert s[0..|s|] == s;
    assert OccursAt(s, s, 0);
  }

  /** A substring is never longer than the string containing it, and a
      substring of equal length is the string itself. */
  lemma SubstringLength(part: string, text: string)
    requires IsSubstring(part, text)
    ensures |part| <= |text|
    ensures |part| == |text| ==> part == text
  {
    var i :| OccursAt(part, text, i);
    if |part| == |text| {
      assert i == 0;
      assert text[0..|text|] == text;
    }
  }

  /** Concatenation of a sequence of strings (token values, windows). */
  function Concat(parts: seq<string>): (r: string)
    decreases |parts|
  {
    if |parts| == 0 then "" else parts[0] + Concat(parts[1..])
  }

  lemma {:induction false} ConcatAppend(a: seq<string>, b: seq<string>)
    ensures Concat(a + b) == Concat(a) + Concat(b)
    decreases |a|
  {
    if |a| == 0 {
      assert a + b == b;
    } else {
      assert (a + b)[1..] == a[1..] + b;
      ConcatAppend(a[1..], b);
    }
  }

  lemma {:induction false} ConcatLength(parts: seq<string>, k: nat)
    requires k <= |parts|
    ensures |Concat(parts[..k])| <= |Concat(parts)|
    ensures Concat(parts) == Concat(parts[..k]) + Concat(parts[k..])
  {
    assert parts == parts[..k] + parts[k..];
    ConcatAppend(parts[..k], parts[k..]);
  }

  /** Every character of a block of consecutive parts occurs in the
      concatenation of all parts. */
  lemma ConcatPartChars(parts: seq<string>, i: nat, j: nat)
    requires i <= j <= |parts|
    ensures forall c :: c in Concat(parts[i..j]) ==> c in Concat(parts)
  {
    ConcatLength(parts, i);
    ConcatLength(parts[i..], j - i);
    assert parts[i..][..j - i] == parts[i..j];
  }

  /** Java `String.join`: parts separated by `sep`, none after the last. */
  function Join(parts: seq<string>, sep: string): (r: string)
    ensures |parts| == 1 ==> r == parts[0]
    decreases |parts|
  {
    if |parts| == 0 then ""
    else if |parts| == 1 then parts[0]
    else parts[0] + sep + Join(parts[1..], sep)
  }

  // ---------------------------------------------------------------------
  // Stable sort, descending by an integer key (Java's List.sort with a
  // comparator `Integer.compare(key(b), key(a))`; List.sort is stable).

  ghost predicate SortedDesc<T>(s: seq<T>, key: T -> int) {
    forall i, j :: 0 <= i < j < |s| ==> key(s[i]) >= key(s[j])
  }

  /** The elements of `s` whose key is `v`, in their order in `s`. A sort
      is stable when it keeps every such subsequence. */
  function WithKey<T>(s: seq<T>, key: T -> int, v: int): seq<T>
    decreases |s|
  {
    if |s| == 0 then []
    else (if key(s[0]) == v then [s[0]] else []) + WithKey(s[1..], key, v)
  }

  /** Inserts `x` in front of the first element whose key is not larger,
      so that `x` precedes elements of equal key that came after it. */
  function InsertDesc<T(==)>(x: T, s: seq<T>, key: T -> int): (r: seq<T>)
    requires SortedDesc(s, key)
    ensures SortedDesc(r, key)
    ensures multiset(r) == multiset(s) + multiset{x}
    ensures |r| == |s| + 1
    ensures r[0] == x || (|s| > 0 && r[0] == s[0])
    ensures forall v :: WithKey(r, key, v) == (if key(x) == v then [x] else []) + WithKey(s, key, v)
    decreases |s|
  {
    if |s| == 0 || key(s[0]) <= key(x) then
      forall v ensures WithKey([x] + s, key, v) == (if key(x) == v then [x] else []) + WithKey(s, key, v) {
        WithKeyCons(x, s, key, v);
      }
      [x] + s
    else
      var rest := InsertDesc(x, s[1..], key);
      assert s == [s[0]] + s[1..];
      assert key(rest[0]) <= key(s[0]);
      forall v ensures WithKey([s[0]] + rest, key, v)
                       == (if key(x) == v then [x] else []) + WithKey(s, key, v) {
        InsertPast(x, s[0], s[1..], rest, key, v);
      }
      [s[0]] + rest
  }

  lemma WithKeyCons<T>(y: T, t: seq<T>, key: T -> int, v: int)
    ensures WithKey([y] + t, key, v) == (if key(y) == v then [y] else []) + WithKey(t, key, v)
  {
    assert ([y] + t)[1..] == t;
  }

  /** Putting `y` in front of `x`'s insertion into `t` keeps the
      subsequence of key `v` when `y`'s key is larger than `x`'s. */
  lemma InsertPast<T>(x: T, y: T, t: seq<T>, rest: seq<T>, key: T -> int, v: int)
    requires key(y) > key(x)
    requires WithKey(rest, key, v) == (if key(x) == v then [x] else []) + WithKey(t, key, v)
    ensures WithKey([y] + rest, key, v) == (if key(x) == v then [x] else []) + WithKey([y] + t, key, v)
  {
    WithKeyCons(y, rest, key, v);
    WithKeyCons(y, t, key, v);
    var e: seq<T> := [];
    var wt := WithKey(t, key, v);
    if key(x) == v {
      assert e + WithKey(rest, key, v) == [x] + wt;
    } else if key(y) == v {
      assert [y] + WithKey(rest, key, v) == [y] + wt;
      assert e + ([y] + wt) == [y] + wt;
    } else {
      assert e + WithKey(rest, key, v) == e + wt;
      assert e + (e + wt) == e + wt;
    }
  }

  function SortDesc<T(==)>(s: seq<T>, key: T -> int): (r: seq<T>)
    ensures SortedDesc(r, key)
    ensures multiset(r) == multiset(s)
    ensures |r| == |s|
    ensures forall v :: WithKey(r, key, v) == WithKey(s, key, v)
    decreases |s|
  {
    if |s| == 0 then []
    else
      assert s == [s[0]] + s[1..];
      InsertDesc(s[0], SortDesc(s[1..], key), key)
  }

  /** A sort keeps exactly the elements it was given. */
  lemma SortDescMembers<T>(s: seq<T>, key: T -> int)
    ensures forall x :: x in SortDesc(s, key) <==> x in s
  {
    var r := SortDesc(s, key);
    forall x ensures x in r <==> x in s {
      assert x in r <==> x in multiset(r);
      assert x in s <==> x in multiset(s);
    }
  }
}
