/** Plain data records of the codec (the source's model package). */
module Model {
  import opened Wrappers

  datatype TokenType = Word | Separator

  /** One maximal run of the input: its text, its kind and the offset of
      its first character. */
  datatype Token = Token(value: string, kind: TokenType, position: nat)

  /** A word or phrase under consideration, with its occurrence count and
      the code assigned to it (Java null until one is assigned). */
  datatype Candidate = Candidate(text: string, frequency: int, code: Option<string>)

  /** One accepted substitution: `word` is replaced by `code`. */
  datatype DictEntry = DictEntry(word: string, code: string, frequency: int)

  datatype Statistics = Statistics(originalLength: int, compressedLength: int, dictionaryEntries: int)

  datatype CompressionResult = CompressionResult(
    compressedText: string, dictionary: seq<DictEntry>, stats: Statistics)

  /** The values of a token list, in order. */
  function Values(ts: seq<Token>): (vs: seq<string>)
    ensures |vs| == |ts|
    ensures forall i :: 0 <= i < |ts| ==> vs[i] == ts[i].value
  {
    seq(|ts|, i requires 0 <= i < |ts| => ts[i].value)
  }

  /** The words of a dictionary, in order. */
  function Words(d: seq<DictEntry>): (ws: seq<string>)
    ensures |ws| == |d|
    ensures forall i :: 0 <= i < |d| ==> ws[i] == d[i].word
  {
    seq(|d|, i requires 0 <= i < |d| => d[i].word)
  }

  /** The codes of a dictionary, in order. */
  function Codes(d: seq<DictEntry>): (cs: seq<string>)
    ensures |cs| == |d|
    ensures forall i :: 0 <= i < |d| ==> cs[i] == d[i].code
  {
    seq(|d|, i requires 0 <= i < |d| => d[i].code)
  }
}
