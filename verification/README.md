# SaberW word-substitution codec in Dafny

SaberW shortens text before it is sent to a chat model. Frequent words are
replaced by rare one-character codes from the CJK Extension A block
(U+3400 onwards). Runs of adjacent codes get a group header: the marker
`●` (U+25CF) followed by the run length as a digit. The compressed text
travels with a `code=word` dictionary, and a decoder turns it back into
text.

The repository has two generations of the codec:

- **SaberWCore** checks word boundaries before substituting. It takes its
  codes from `ImprovedCodeGenerator`: 100 primary symbols, then 40
  extended ones, then pairs of primary symbols. It groups runs of 2 to 9
  one-symbol codes, and puts `↓` (U+2193) in front of text it has
  lower-cased.
- **SaberWCompressor** substitutes without a boundary check. It takes its
  codes from `SmartCodeGenerator` (100 symbols, then nothing), and caps
  groups at nine codes.

Around the two codecs the project models:

- the tokenizer;
- the admission predicates of `ValidationHelper`;
- the hashed phrase finder, together with the brute-force finder of the
  benchmark it is measured against;
- the sequential `UnicodeHelper.CodeGenerator` and the `DictionaryBuilder`
  that uses it;
- the `code=word` text helpers shared by both desktop front ends (render,
  parse, merge, prune, export);
- the two chat-message layouts of `DualFormatBuilder`.

Everything is written as pure functions over immutable datatypes.

- **Strings and collections.** A Java `String` is a `string` of Unicode
  characters, which matches Java's UTF-16 units on text from the Basic
  Multilingual Plane only (see "## Left out"). Lists are
  sequences, and every in-place sort or removal becomes a function that
  returns the new list.
- **Generators.** Each code generator is a record of its cursors, and
  every call returns the code together with the advanced record.
- **Null.** Where the source tests an argument for `null`, a Java `null`
  is `None` of an `Option`. The GUI and message helpers take plain strings
  (see "## Left out").
- **Character classes.** Java's tables (`Character.isLetterOrDigit`,
  `Character.isDigit`, the regex class `[\p{L}\p{N}]`, `toLowerCase`)
  are never fixed. They come in as a `CharClasses` value, and a
  `WellFormed` predicate states the few ASCII facts the proofs rely on.
  `Unicode.AsciiClasses` shows that this predicate can be met.

Files, one module each:

- `model.dfy`: tokens, candidates, dictionary entries, results.
- `unicode.dfy`: character classes, markers, character and bigram sets.
- `seqs.dfy`: counting, stable sorting, joining, substrings.
- `wrappers.dfy`: `Option`.
- `tokenizer.dfy`, `validation.dfy`, `phrases.dfy`, `benchmark.dfy`.
- `improved_codegen.dfy`, `smart_codegen.dfy`, `unicode_helper.dfy`.
- `codec.dfy`: substitution, lookup and expansion shared by both codecs.
- `core.dfy` and `core_proofs.dfy`: SaberWCore.
- `compressor.dfy` and `compressor_proofs.dfy`: SaberWCompressor.
- `dictionary_builder.dfy`, `dict_text.dfy`, `dual_format.dfy`.

## Model

| member | source | states |
|---|---|---|
| Tokenizer.Tokenize | SaberW/src/com/saberw/core/Tokenizer.java:21-40 | A null or empty text gives no tokens; otherwise the token values concatenate back to the text |
| Tokenizer.TokenizePartition | SaberW/src/com/saberw/core/Tokenizer.java:13-14 | The tokens partition the text exactly: no token is empty, each is a maximal run of one class, neighbours are of opposite classes, and a token is WORD iff its first character is a letter, a digit or `_` (lines 33 and 43-50) |
| Tokenizer.TokenizePositions | SaberW/src/com/saberw/core/Tokenizer.java:28-39 | Each token's position is the total length of the tokens before it |
| Tokenizer.TokenizationUnique | SaberW/src/com/saberw/core/Tokenizer.java:13-14 | Any split of a text into alternating maximal runs is the tokenizer's split: the token sequence is determined by the text |
| Tokenizer.RunLength | SaberW/src/com/saberw/core/Tokenizer.java:13-14 | The regex match at a position is non-empty, of one class, and stops at the first character of the other class |
| Tokenizer.AdmittedWords | SaberW/src/com/saberw/core/Tokenizer.java:69-74 | The counted word list holds each word exactly as often as it occurs as a WORD token when it passes the one-argument admission rule, and not at all otherwise |
| Tokenizer.KeepFrequent | SaberW/src/com/saberw/core/Tokenizer.java:76-82 | A word is kept iff it is in the list and reaches the minimum count; distinct input stays distinct |
| Tokenizer.FindWordsToEncode | SaberW/src/com/saberw/core/Tokenizer.java:65-85 | Exactly the distinct words that occur as WORD tokens, pass the one-argument admission rule and occur at least `minFrequency` times |
| Tokenizer.FindPhraseCandidates | SaberW/src/com/saberw/core/Tokenizer.java:54-60 | Delegates to the optimized finder: empty for null or fewer than two tokens, ranked by length times frequency, every candidate uncoded, frequent enough and long enough |
| Validation.AllLetterOrDigit | SaberW/src/com/saberw/util/ValidationHelper.java:12-16 | True iff every character is a letter or digit |
| Validation.ShouldEncodeWord | SaberW/src/com/saberw/util/ValidationHelper.java:6-18 | True iff the word is present, has at least four characters, and all of them are letters or digits |
| Validation.ShouldEncodeWordWithFrequency | SaberW/src/com/saberw/util/ValidationHelper.java:21-39 | False below two characters; for two characters decided by `minLengthForTwoChars` alone, even when `minLength` is at most 2; from `minLength` on decided by `minFrequency`; false in between |
| Validation.ShouldEncodeMonotone | SaberW/src/com/saberw/util/ValidationHelper.java:29-38 | A word admitted at frequency f is admitted at every higher frequency |
| Validation.IsAlphanumericWord | SaberW/src/com/saberw/util/ValidationHelper.java:42-51 | False for null, true for the empty string, otherwise true iff all characters are letters or digits |
| Validation.ShouldEncodeIsLongAlphanumeric | SaberW/src/com/saberw/util/ValidationHelper.java:6-18 | The one-argument admission rule is exactly "at least four characters and alphanumeric" |
| Validation.ContainsSaberWSymbols | SaberW/src/com/saberw/util/ValidationHelper.java:54-62 | True iff the text is present and contains the group marker or the lower-case marker |
| Validation.ReplaceChar | SaberW/src/com/saberw/util/ValidationHelper.java:70-75 | Replacing every occurrence of a character changes the length by (replacement length - 1) per occurrence; a text without the character is returned unchanged; a one-character text becomes the replacement if it is that character and stays as it is otherwise |
| Validation.ReplaceCharAppend | SaberW/src/com/saberw/util/ValidationHelper.java:70-75 | The replacement of a concatenation is the concatenation of the replacements, so each occurrence is replaced where it stands and every other character is kept |
| Validation.DoubleCharCount | SaberW/src/com/saberw/util/ValidationHelper.java:70-75 | Doubling a character exactly doubles its count |
| Validation.EscapeSaberWSymbols | SaberW/src/com/saberw/util/ValidationHelper.java:65-78 | Null maps to null; the output is longer by the number of markers, and holds each of the two markers exactly twice as often; it is the text with each `●` and `↓` written twice in place and every other character copied (`EscapeEach`), and reading doubled markers back as single ones (`Unescape`) gives the text back |
| Validation.EscapeIsEach | SaberW/src/com/saberw/util/ValidationHelper.java:70-75 | The two successive whole-text replacements equal the left-to-right escape of each character |
| Validation.UnescapeEscape | SaberW/src/com/saberw/util/ValidationHelper.java:65-78 | The escape is undone by reading each doubled marker as one |
| Validation.EscapeCounts | SaberW/src/com/saberw/util/ValidationHelper.java:70-75 | The two successive replacements double each marker's count; the second replacement keeps the count of the first marker |
| Validation.AnyIndicator | SaberW/src/com/saberw/util/ValidationHelper.java:92-96 | The scan over the indicator list finds a match iff one of the remaining indicators occurs in the text |
| Validation.IsLikelySourceCode | SaberW/src/com/saberw/util/ValidationHelper.java:81-99 | True iff the text is present, has at least ten characters, and contains one of the 20 indicators |
| PhraseFinder.JavaHash | SaberW/src/com/saberw/core/PhraseFinder.java:60-63 | Java's `String.hashCode`, kept as an unsigned 32-bit value |
| PhraseFinder.Windows | SaberW/src/com/saberw/core/PhraseFinder.java:43-74 | The windows of `len` tokens in position order: there are n - len + 1 of them, the i-th is the concatenation of tokens i..i+len-1 |
| PhraseFinder.GetPhrase | SaberW/src/com/saberw/core/PhraseFinder.java:111-117 | Concatenates `length` tokens from `start` when they exist |
| PhraseFinder.SlideWindow | SaberW/src/com/saberw/core/PhraseFinder.java:56-74 | Dropping the first token of a window and appending the next token gives the next window |
| PhraseFinder.RollFrom | SaberW/src/com/saberw/core/PhraseFinder.java:56-74 | The incrementally rebuilt windows from position i on are the concatenation windows |
| PhraseFinder.RollingWindows | SaberW/src/com/saberw/core/PhraseFinder.java:43-74 | The window list built the source's way (first window, then sliding) equals the list of concatenations |
| PhraseFinder.Bucket | SaberW/src/com/saberw/core/PhraseFinder.java:77-82 | A hash bucket holds each window with that hash as often as it occurs, and no other window |
| PhraseFinder.BucketPruning | SaberW/src/com/saberw/core/PhraseFinder.java:83-85 | Skipping buckets smaller than `minFrequency` loses no phrase: such a bucket holds no phrase that often |
| PhraseFinder.BucketCandidates | SaberW/src/com/saberw/core/PhraseFinder.java:83-94 | A candidate is emitted iff its text is a window, its frequency is the exact number of equal windows (hash equality is not taken as string equality), it is frequent enough and long enough; texts are distinct |
| PhraseFinder.LengthCandidates | SaberW/src/com/saberw/core/PhraseFinder.java:36-94 | For one window length, the candidates are exactly the admitted windows of that length |
| PhraseFinder.CandidatesFrom | SaberW/src/com/saberw/core/PhraseFinder.java:36-37 | The scan over lengths from `len` to `maxPhraseTokens` yields exactly the phrases admitted at one of those lengths |
| PhraseFinder.PhrasesBeforeDedup | SaberW/src/com/saberw/core/PhraseFinder.java:12-97 | Empty for null or fewer than two tokens; otherwise exactly the phrases admitted at some length 2..`maxPhraseTokens` (lengths beyond the token count admit nothing) |
| PhraseFinder.KeepLongest | SaberW/src/com/saberw/core/PhraseFinder.java:126-143 | The scan over length-sorted candidates keeps a substring-free list that contains everything already kept, and every dropped candidate is a substring of a kept one at least as long |
| PhraseFinder.RemoveDuplicatePhrases | SaberW/src/com/saberw/core/PhraseFinder.java:120-146 | The result is a subset of the input, no kept phrase is a substring of another, and each dropped phrase is a substring of a kept phrase at least as long |
| PhraseFinder.FindPhrasesOptimized | SaberW/src/com/saberw/core/PhraseFinder.java:12-108 | Empty for null or fewer than two tokens; ranked by length times frequency, non-increasing; substring-free; a subset of the admitted phrases; every admitted phrase is kept or lies inside a kept one at least as long |
| PhraseFinder.RankKeepsFree | SaberW/src/com/saberw/core/PhraseFinder.java:101-105 | Ranking neither adds nor loses candidates and keeps the list substring-free |
| Benchmark.OldWindows | src/com/saberw/util/Benchmark.java:73-88 | The brute-force loops record exactly the windows of 2..`maxPhraseTokens` tokens that are at least `minPhraseLength` long |
| Benchmark.Frequent | src/com/saberw/util/Benchmark.java:90-95 | A candidate is emitted iff its phrase was counted at least `minFrequency` times, and it carries that count |
| Benchmark.FindPhrasesOld | src/com/saberw/util/Benchmark.java:66-104 | Sorted by length times frequency, non-increasing; exactly the recorded phrases with their exact count, when frequent enough |
| Benchmark.WindowRuns | src/com/saberw/util/Benchmark.java:73-86 | A window of l consecutive tokens of a tokenized text consists of exactly l runs, so its token count can be read off the phrase |
| Benchmark.OldCountIsLengthCount | src/com/saberw/util/Benchmark.java:73-88 | The brute-force count of a phrase over all lengths equals its count among windows of its own token length |
| Benchmark.OldAgreesWithOptimized | src/com/saberw/util/Benchmark.java:29-53 | On any token list that splits text into alternating runs, the brute-force finder and the optimized finder before its dedup step yield the same (phrase, frequency) set |
| Benchmark.OldAgreesOnTokenizedText | src/com/saberw/util/Benchmark.java:29-53 | The two finders agree on the tokens of any text |
| ImprovedCodeGenerator.Primary | SaberW/src/com/saberw/util/ImprovedCodeGenerator.java:7-18 | Primary entry i is U+3400 + i |
| ImprovedCodeGenerator.Extended | SaberW/src/com/saberw/util/ImprovedCodeGenerator.java:21-26 | Extended entry i is U+3464 + i |
| ImprovedCodeGenerator.AvailableCodeChars | SaberW/src/com/saberw/util/ImprovedCodeGenerator.java:147-152 | The 140 symbols, primary then extended, pairwise distinct; a symbol is listed iff it lies in the code range U+3400..U+348B (lines 175-179) |
| ImprovedCodeGenerator.CodeSafeMeansAbsent | SaberW/src/com/saberw/util/ImprovedCodeGenerator.java:131-142 | For a generator built over a text, a code is safe iff it has one or two symbols and none of them occurs in the text |
| ImprovedCodeGenerator.IsCodeSafe | SaberW/src/com/saberw/util/ImprovedCodeGenerator.java:131-142 | A safe code is present, one or two symbols long, and none of its symbols occurs in the text (the converse for a fresh generator: `ImprovedCodeGenerator.CodeSafeMeansAbsent`) |
| ImprovedCodeGenerator.ScanPrimary | SaberW/src/com/saberw/util/ImprovedCodeGenerator.java:86-91 | The first loop returns the first primary symbol at or after the cursor that is absent from the text and moves the cursor past it, changing nothing else; when none remains the primary table is exhausted |
| ImprovedCodeGenerator.ScanExtended | SaberW/src/com/saberw/util/ImprovedCodeGenerator.java:93-98 | The second loop does the same over the extended table |
| ImprovedCodeGenerator.GenerateBigramCode | SaberW/src/com/saberw/util/ImprovedCodeGenerator.java:105-126 | Returns the first safe pair of primary symbols at or after the pair cursor and advances past it; a missing result (the source's exception) means no safe pair remains |
| ImprovedCodeGenerator.NextCode | SaberW/src/com/saberw/util/ImprovedCodeGenerator.java:84-103 | Every code returned is safe for the text and is a single or a pair; its rank lies between the old and the new cursor position, so cursors only advance |
| ImprovedCodeGenerator.NextCodeOrder | SaberW/src/com/saberw/util/ImprovedCodeGenerator.java:84-103 | While a primary symbol is left a primary single is issued, then extended singles, and a pair only when both tables are exhausted |
| ImprovedCodeGenerator.NextCodeExhausted | SaberW/src/com/saberw/util/ImprovedCodeGenerator.java:100-102 | No code means both tables are exhausted and no safe pair remains |
| ImprovedCodeGenerator.RunRanksIncrease | SaberW/src/com/saberw/util/ImprovedCodeGenerator.java:86-122 | Over successive calls the ranks of the issued codes strictly increase |
| ImprovedCodeGenerator.RunCodesDistinct | SaberW/src/com/saberw/util/ImprovedCodeGenerator.java:86-122 | One generator never returns the same code twice |
| ImprovedCodeGenerator.PassedPrimaryIssued | SaberW/src/com/saberw/util/ImprovedCodeGenerator.java:86-91 | Every primary symbol absent from the text that the cursor has passed was issued as a single code |
| ImprovedCodeGenerator.PairReusesSingles | SaberW/src/com/saberw/util/ImprovedCodeGenerator.java:105-122 | Both symbols of every pair code were issued earlier as single codes |
| ImprovedCodeGenerator.NextSingleCode | SaberW/src/com/saberw/util/ImprovedCodeGenerator.java:84-99 | The allocator without its pair stage: issues what `nextCode` issues while singles last, then nothing; every code is a safe single |
| ImprovedCodeGenerator.RunSinglesIssuesSingles | SaberW/src/com/saberw/util/ImprovedCodeGenerator.java:84-99 | Successive calls of that allocator issue single symbols absent from the text, in strictly increasing rank |
| ImprovedCodeGenerator.NormalizeText | SaberW/src/com/saberw/util/ImprovedCodeGenerator.java:157-173 | Null maps to null; the length is kept; each character is lower-cased, except code-range characters when `preserveCodeCase` is set |
| ImprovedCodeGenerator.NormalizeLowersAscii | SaberW/src/com/saberw/util/ImprovedCodeGenerator.java:157-179 | Every ASCII capital of the text is lower-cased, and with `preserveCodeCase` code characters are untouched |
| ImprovedCodeGenerator.CalculateBenefit | SaberW/src/com/saberw/util/ImprovedCodeGenerator.java:185-192 | Zero when the word or the code is null |
| ImprovedCodeGenerator.BenefitMeaning | SaberW/src/com/saberw/util/ImprovedCodeGenerator.java:185-192 | The benefit is positive iff the characters saved, (\|w\| - \|c\|) times f, exceed the dictionary line cost \|c\| + \|w\| + 3; with a code shorter than the word it grows with the frequency |
| SmartCodeGenerator.CodeChar | src/com/saberw/util/SmartCodeGenerator.java:7-18 | Table entry i is U+3400 + i |
| SmartCodeGenerator.AllCodeChars | src/com/saberw/util/SmartCodeGenerator.java:89-95 | The 100 table symbols in order, pairwise distinct |
| SmartCodeGenerator.AllCodeCharsArePrimary | src/com/saberw/util/SmartCodeGenerator.java:7-18 | The table equals the primary table of `ImprovedCodeGenerator` |
| SmartCodeGenerator.FindAvailable | src/com/saberw/util/SmartCodeGenerator.java:58-69 | The first table index at or after the cursor whose symbol is absent from the text; none iff every remaining symbol occurs in the text |
| SmartCodeGenerator.NextCode | src/com/saberw/util/SmartCodeGenerator.java:40-55 | A returned code is one table symbol; the text's characters are kept |
| SmartCodeGenerator.NextCodeIsFirstAbsent | src/com/saberw/util/SmartCodeGenerator.java:40-76 | The code returned is the first absent symbol in table order, and the cursor moves just past it; null exactly when no symbol is left (the fallback, lines 72-76) |
| SmartCodeGenerator.NextCodeSafe | src/com/saberw/util/SmartCodeGenerator.java:40-86 | Every non-null code passes `isSafeToInsert` (one character, absent from the text), and the cursor only advances |
| SmartCodeGenerator.IsSafeToInsert | src/com/saberw/util/SmartCodeGenerator.java:79-86 | A code safe to insert also passes the other allocator's `isCodeSafe` for the same text characters, and no code of other than one symbol is safe |
| SmartCodeGenerator.NullStaysNull | src/com/saberw/util/SmartCodeGenerator.java:41-43 | After a null the next call is null again |
| SmartCodeGenerator.NullForever | src/com/saberw/util/SmartCodeGenerator.java:41-43 | After a null every later call returns null |
| SmartCodeGenerator.IssueAllIsAbsent | src/com/saberw/util/SmartCodeGenerator.java:40-69 | Calling until null issues exactly the absent table symbols from the cursor on, in table order |
| SmartCodeGenerator.AbsentIncreasing | src/com/saberw/util/SmartCodeGenerator.java:46 | The issued symbols strictly increase, so none is issued twice |
| SmartCodeGenerator.AbsentCount | src/com/saberw/util/SmartCodeGenerator.java:58-69 | From a cursor on, the number of issued symbols plus the number of table symbols found in the text is the number of table entries left |
| SmartCodeGenerator.FreshGeneratorIssues | src/com/saberw/util/SmartCodeGenerator.java:24-69 | A new generator issues 100 minus the number of table symbols in the text, all distinct |
| UnicodeHelper.New | src/com/saberw/util/UnicodeHelper.java:19-21 | A new generator's current code is U+3400 |
| UnicodeHelper.Reset | src/com/saberw/util/UnicodeHelper.java:34-36 | After `reset` the generator is a new one |
| UnicodeHelper.NextCode | src/com/saberw/util/UnicodeHelper.java:23-28 | Fails (no code, generator unchanged) iff the current code is past U+4DBF; otherwise returns the current code (`getCurrentCode`, lines 30-32) and advances it by one |
| UnicodeHelper.IssueAllFrom | src/com/saberw/util/UnicodeHelper.java:23-28 | Calling until failure issues the current code and each following code up to U+4DBF, one character each |
| UnicodeHelper.FreshGeneratorIssues | src/com/saberw/util/UnicodeHelper.java:8-28 | A new generator issues exactly U+3400..U+4DBF, 6592 strictly increasing codes, all in the code range |
| UnicodeHelper.LastIssuedCodeRejected | src/com/saberw/util/UnicodeHelper.java:11-13 | `isValidCodeChar` accepts the first 6591 issued codes and rejects the last one, U+4DBF |
| UnicodeHelper.IsValidCodeChar | src/com/saberw/util/UnicodeHelper.java:11-13 | Accepts exactly the symbols of U+3400..U+4DBF other than U+4DBF, the last one the range holds |
| Unicode.CharSet | SaberW/src/com/saberw/util/ImprovedCodeGenerator.java:53-59 | The set of the text's characters |
| Unicode.Bigrams | SaberW/src/com/saberw/util/ImprovedCodeGenerator.java:61-67 | Exactly the two-character substrings of the text |
| SaberWCore.TextToProcess | SaberW/src/com/saberw/core/SaberWCore.java:96-102 | Same length as the original; the original itself unless lower-casing applies |
| SaberWCore.NewCore | SaberW/src/com/saberw/core/SaberWCore.java:27-40 | The generator is built over the processed text |
| SaberWCore.AnalyzeWordFrequency | SaberW/src/com/saberw/core/SaberWCore.java:104-115 | One entry per distinct word; the words are exactly the alphanumeric WORD tokens, each with its exact count |
| SaberWCore.Admit | SaberW/src/com/saberw/core/SaberWCore.java:122-131 | A candidate is kept iff its word and count are in the table and pass the five-argument admission rule |
| SaberWCore.SelectCandidates | SaberW/src/com/saberw/core/SaberWCore.java:117-143 | Exactly those candidates, ranked by `calculateBenefit(word, freq, "?")`, non-increasing |
| SaberWCore.Issue | SaberW/src/com/saberw/core/SaberWCore.java:147-158 | One allocation: a returned code is safe, single or pair (single when pairs are off), and the cursor position only advances |
| SaberWCore.AssignCodes | SaberW/src/com/saberw/core/SaberWCore.java:145-163 | Candidates whose allocation failed are removed; every kept candidate holds a code |
| SaberWCore.AssignedCodes | SaberW/src/com/saberw/core/SaberWCore.java:145-163 | Every kept code was issued during the call and is safe for the processed text |
| SaberWCore.AssignedFrom | SaberW/src/com/saberw/core/SaberWCore.java:145-163 | The kept candidates are the input's candidates in order, each given a code |
| SaberWCore.AssignedAscending | SaberW/src/com/saberw/core/SaberWCore.java:145-163 | Kept codes are issued in strictly increasing rank, hence pairwise distinct |
| SaberWCore.CreateDictionary | SaberW/src/com/saberw/core/SaberWCore.java:165-177 | One entry per candidate, in order, carrying its word, code and frequency |
| SaberWCore.Header | SaberW/src/com/saberw/core/SaberWCore.java:247-250 | A run of 2..9 codes gets the group marker and its length digit; other lengths get no header |
| SaberWCore.GroupRun | SaberW/src/com/saberw/core/SaberWCore.java:234-253 | A maximal run of one-symbol codes is copied behind its header (none outside 2..9), and coding continues after it |
| SaberWCore.StripGroup | SaberW/src/com/saberw/core/SaberWCore.java:218-261 | On text without the group marker, deleting the inserted headers restores the input |
| SaberWCore.ApplyGroupCoding | SaberW/src/com/saberw/core/SaberWCore.java:218-261 | Headers are only ever inserted: on text without the group marker, deleting them gives the text back; a text holding no one-symbol code comes back unchanged (what the decoder makes of the result is `SaberWCoreProofs.DecodeGroup`) |
| SaberWCore.GroupPlain | SaberW/src/com/saberw/core/SaberWCore.java:234-258 | Characters that are not one-symbol codes are copied one by one, so a text without codes is unchanged |
| SaberWCore.EncodeText | SaberW/src/com/saberw/core/SaberWCore.java:179-204 | For a reversible dictionary on code-free text, expanding every code of the result gives the text back; an empty dictionary leaves the text alone |
| SaberWCore.CalculateStatistics | SaberW/src/com/saberw/core/SaberWCore.java:263-278 | Original length and entry count as given; the compressed length exceeds the final text's length by the dictionary cost, at least 3 per entry |
| SaberWCore.DictCostAppend | SaberW/src/com/saberw/core/SaberWCore.java:271-274 | The dictionary cost is additive over concatenation |
| SaberWCore.Compress | SaberW/src/com/saberw/core/SaberWCore.java:50-58 | An empty processed text gives ("", [], stats 0/0/0) with the generator unchanged |
| SaberWCore.CompressWithPhrases | SaberW/src/com/saberw/core/SaberWCore.java:50-94 | The corrected `compress` that puts the phrase arguments to use; empty text gives the empty result |
| SaberWCore.CompressSinglesOnly | SaberW/src/com/saberw/core/SaberWCore.java:50-94 | The corrected `compress` whose allocator issues no pairs; empty text gives the empty result |
| SaberWCore.CompressDefault | SaberW/src/com/saberw/core/SaberWCore.java:45-48 | `compress()` with the defaults 3, 2, 6, 5, 7; empty text gives the empty result |
| SaberWCore.Decompress | SaberW/src/com/saberw/core/SaberWCore.java:283-370 | Null text or dictionary returns the text; otherwise some text comes back, and for one-symbol codes and text without group headers it is the text after one leading lower-case marker with every code replaced by its word (group-coded text: `SaberWCoreProofs.DecodeEncoded`) |
| SaberWCore.DecodeFrom | SaberW/src/com/saberw/core/SaberWCore.java:310-358 | With a lookup of one-symbol keys matching the code set, a text without the group marker decodes to its symbol-by-symbol expansion: codes become words, everything else is copied |
| Codec.CodeMap | SaberW/src/com/saberw/core/SaberWCore.java:297-301 | The lookup's keys are exactly the dictionary's codes |
| Codec.CodeMapLastWins | SaberW/src/com/saberw/core/SaberWCore.java:300-301 | A code maps to the word of its last entry |
| Codec.CodeMapDistinct | SaberW/src/com/saberw/core/SaberWCore.java:297-305 | With distinct codes every entry is found under its code |
| Codec.SingleCodes | SaberW/src/com/saberw/core/SaberWCore.java:220-225 | The symbols of exactly the one-symbol codes |
| Codec.SingleKeys | SaberW/src/com/saberw/core/SaberWCore.java:297-305 | With one-symbol codes only, the single set and the lookup's keys coincide |
| Codec.Replace | SaberW/src/com/saberw/core/SaberWCore.java:191-200 | The result holds only characters of the text or the code |
| Codec.ReplaceFromExpands | SaberW/src/com/saberw/core/SaberWCore.java:191-200 | When the code decodes to the word, expanding the substituted text gives the expansion of the original |
| Codec.ReplaceHit | SaberW/src/com/saberw/core/SaberWCore.java:192-196 | A whole-word occurrence (any occurrence when boundaries are off) is replaced and the scan resumes after the code |
| Codec.ReplaceSkip | SaberW/src/com/saberw/core/SaberWCore.java:197-199 | An occurrence that is not a whole word is kept and the scan moves one character on |
| Codec.IsWholeWord | SaberW/src/com/saberw/core/SaberWCore.java:206-216 | An occurrence bounded by spaces or the buffer ends is a whole word; with well-formed character classes, an ASCII letter right before or right after it rules it out (see `Codec.CatalogKeptInCatalogs`) |
| Codec.CatalogKeptInCatalogs | SaberW/src/com/saberw/core/SaberWCore.java:206-216 | Replacing `catalog` in `catalog catalogs` touches only the first word |
| Codec.SortByLength | SaberW/src/com/saberw/core/SaberWCore.java:181-183 | Sorting by word length keeps the entries |
| Seqs.SortDesc | SaberW/src/com/saberw/core/SaberWCore.java:181-183 | Java's stable `List.sort` with a descending comparator: the result is sorted by non-increasing key, is a permutation of the input, and lists the elements of each key in their input order |
| Codec.EncodeAvoids | SaberW/src/com/saberw/core/SaberWCore.java:179-204 | A character in neither the text nor any code never appears in the encoded text |
| Codec.EncodeExpands | SaberW/src/com/saberw/core/SaberWCore.java:179-204 | For a reversible dictionary on code-free text, expanding the encoded text gives the text back |
| Codec.EncodeFirst | SaberW/src/com/saberw/core/SaberWCore.java:179-204 | A character that starts neither the text nor any code does not start the encoded text |
| Codec.Encode | SaberW/src/com/saberw/core/SaberWCore.java:179-204 | For a reversible dictionary on code-free text, the symbol-by-symbol expansion of the encoded text is the text |
| Codec.CodeRun | SaberW/src/com/saberw/core/SaberWCore.java:240-244 | The length of the maximal run of code symbols at the front |
| Codec.DigitChar | SaberW/src/com/saberw/core/SaberWCore.java:249 | The ASCII digit of a count 0..9 |
| SaberWCoreProofs.DecodeGroup | SaberW/src/com/saberw/core/SaberWCore.java:310-358 | The decoder reads group-coded text back as its symbol-by-symbol expansion |
| SaberWCoreProofs.WordCandidateWithin | SaberW/src/com/saberw/core/SaberWCore.java:104-143 | Every word candidate is a non-empty, uncoded word of the text |
| SaberWCoreProofs.PhraseCandidateWithin | SaberW/src/com/saberw/core/Tokenizer.java:54-60 | Every phrase candidate is a non-empty, uncoded run of consecutive tokens of the text |
| SaberWCoreProofs.DictDistinct | SaberW/src/com/saberw/core/SaberWCore.java:145-177 | No two dictionary entries share a code |
| SaberWCoreProofs.PipelineDictionary | SaberW/src/com/saberw/core/SaberWCore.java:60-76 | The dictionary of a compression has distinct codes, words that are non-empty pieces of the text, and codes of code-block symbols absent from the text (one symbol each when pairs are off) |
| SaberWCoreProofs.DecodeEncoded | SaberW/src/com/saberw/core/SaberWCore.java:179-358 | Decoding the group-coded, substituted text gives the text back |
| SaberWCoreProofs.DecompressCoded | SaberW/src/com/saberw/core/SaberWCore.java:283-358 | Decompressing the coded text, with or without the marker in front, gives the text back |
| SaberWCoreProofs.PipelineRoundTrip | SaberW/src/com/saberw/core/SaberWCore.java:50-358 | With single codes only, on text without `●` not starting with `↓`, decompression gives back the processed text |
| SaberWCoreProofs.CompressMarker | SaberW/src/com/saberw/core/SaberWCore.java:85-87 | The compressed text starts with `↓` exactly when lower-casing is on and the text is not likely source code |
| SaberWCoreProofs.CompressRoundTrip | SaberW/src/com/saberw/core/SaberWCore.java:50-358 | `compress` as written round-trips whenever its dictionary has one-symbol codes only |
| SaberWCoreProofs.SinglesOnlyRoundTrip | SaberW/src/com/saberw/core/SaberWCore.java:27-358 | Without the pair stage, decompression gives back the processed text for every text without `●` not starting with `↓`; with lower-casing off that is the original text |
| SaberWCoreProofs.LowerCasingKeepsMarkers | SaberW/src/com/saberw/core/SaberWCore.java:96-102 | Lower-casing neither creates nor removes a group marker, nor a leading lower-case marker |
| SaberWCoreProofs.CompressIgnoresPhraseArgs | SaberW/src/com/saberw/core/SaberWCore.java:50-94 | As written, `maxPhraseTokens` and `minPhraseLength` do not affect the result |
| SaberWCoreProofs.CompressWordsOnly | SaberW/src/com/saberw/core/SaberWCore.java:60-76 | As written, every dictionary word is a single alphanumeric WORD token, never a phrase |
| SaberWCoreProofs.WithPhrasesDictionary | SaberW/src/com/saberw/core/SaberWCore.java:60-76 | With the phrase arguments put to use, every entry's word is an admitted word or an admitted phrase of 2..`maxPhraseTokens` tokens |
| SaberWCoreProofs.PairCodeMisdecoded | SaberW/src/com/saberw/core/SaberWCore.java:335-353 | With `alpha`, `beta` and the pair code `gamma`, the coded form of `gamma` decodes to `alphabeta` |
| SaberWCoreProofs.PairDecodedAsTwo | SaberW/src/com/saberw/core/SaberWCore.java:314-332 | A group header over the pair's two symbols decodes to the two single words, not to the pair's word |
| SaberWCompressor.KeepFrequent | SaberW/src/com/saberw/core/SaberWCompressor.java:37-41 | A candidate is kept iff it is in the list and reaches `minFrequency` |
| SaberWCompressor.KeepFrequentDistinct | SaberW/src/com/saberw/core/SaberWCompressor.java:37-41 | Filtering keeps texts distinct |
| SaberWCompressor.WordCandidates | SaberW/src/com/saberw/core/SaberWCompressor.java:27-41 | Distinct texts; exactly the words that pass the one-argument admission rule, with their exact WORD-token count, when that count reaches `minFrequency` |
| SaberWCompressor.SelectWords | SaberW/src/com/saberw/core/SaberWCompressor.java:27-48 | Those candidates ranked by length times frequency, non-increasing |
| SaberWCompressor.AssignSmart | SaberW/src/com/saberw/core/SaberWCompressor.java:51-62 | At most one entry per candidate; the generator's cursor only advances |
| SaberWCompressor.AssignSmartIssues | SaberW/src/com/saberw/core/SaberWCompressor.java:51-62 | Entry i pairs candidate i with the i-th code the generator issues; the dictionary stops when candidates or codes run out |
| SaberWCompressor.DictionaryEntries | SaberW/src/com/saberw/core/SaberWCompressor.java:15-62 | Entry i is ranked candidate i with the i-th table symbol absent from the text: single code-table symbols, absent from the text, increasing, distinct codes and words, each word admitted with its exact count |
| SaberWCompressor.Dictionary | SaberW/src/com/saberw/core/SaberWCompressor.java:27-62 | Every word is non-empty and every code is one table symbol U+3400..U+3463 that the text does not hold (the full description is `SaberWCompressor.DictionaryEntries`) |
| SaberWCompressor.EncodeSimple | SaberW/src/com/saberw/core/SaberWCompressor.java:81-100 | For a reversible dictionary on code-free text, expanding every code of the result gives the text back |
| SaberWCompressor.GroupAsWritten | SaberW/src/com/saberw/core/SaberWCompressor.java:103-155 | A text with no code symbol is copied unchanged, and the result holds only characters of the text, the group marker and digits (long runs: `SaberWCompressorProofs.AsWrittenLongRun`) |
| SaberWCompressor.GroupHeader | SaberW/src/com/saberw/core/SaberWCompressor.java:133-135 | The group marker followed by the ASCII digit of the count |
| SaberWCompressor.Compress | SaberW/src/com/saberw/core/SaberWCompressor.java:15-78 | Null or empty text gives the empty result; otherwise the dictionary is the one built above, and the stats are the text length, the grouped length (no dictionary cost) and the entry count |
| SaberWCompressor.CompressDefault | SaberW/src/com/saberw/core/SaberWCompressor.java:11-13 | `compress(text)` uses minimum frequency 2; empty text gives the empty result |
| SaberWCompressor.CompressFixed | SaberW/src/com/saberw/core/SaberWCompressor.java:15-78 | The same dictionary and statistics with the corrected grouping |
| SaberWCompressor.Decompress | SaberW/src/com/saberw/core/SaberWCompressor.java:158-225 | Null text or dictionary returns the text; otherwise some text comes back, and for text without the group marker it is the text with every one-symbol code replaced by its word (grouped text: `SaberWCompressorProofs.DecodeGroupFixed`, `FixedRoundTrip`) |
| SaberWCompressor.DecodeFrom | SaberW/src/com/saberw/core/SaberWCompressor.java:181-222 | When the code set is exactly the symbols with a one-symbol entry, a text without the group marker decodes to its symbol-by-symbol expansion |
| SaberWCompressorProofs.DictionaryReversible | SaberW/src/com/saberw/core/SaberWCompressor.java:51-62 | The dictionary is reversible, the text holds none of its codes, and no code is the group marker |
| SaberWCompressorProofs.DictionaryWordWithin | SaberW/src/com/saberw/core/SaberWCompressor.java:27-33 | Each entry's word is a non-empty piece of the text |
| SaberWCompressorProofs.DecodeGroupFixed | SaberW/src/com/saberw/core/SaberWCompressor.java:181-222 | The decoder reads text grouped the corrected way back as its symbol-by-symbol expansion |
| SaberWCompressorProofs.FixedRoundTrip | SaberW/src/com/saberw/core/SaberWCompressor.java:15-225 | With corrected grouping, decompression gives back every text without `●` |
| SaberWCompressorProofs.AsWrittenOnShortRuns | SaberW/src/com/saberw/core/SaberWCompressor.java:116-152 | When no run is longer than nine codes, the grouping as written equals the corrected one |
| SaberWCompressorProofs.CompressRoundTrip | SaberW/src/com/saberw/core/SaberWCompressor.java:15-225 | `compress` as written round-trips on text without `●` whose encoded form has no run of more than nine codes |
| SaberWCompressorProofs.AsWrittenLongRun | SaberW/src/com/saberw/core/SaberWCompressor.java:131-141 | A run of more than nine codes is written as its first nine behind a header, and the rest of the run is dropped |
| SaberWCompressorProofs.DecodeLongRun | SaberW/src/com/saberw/core/SaberWCompressor.java:131-141 | The decoded form of such a run holds only its first nine words |
| SaberWCompressorProofs.TenCodesDecodeToNine | SaberW/src/com/saberw/core/SaberWCompressor.java:131-141 | Ten copies of the code for `word` come back as 36 characters (nine words); the corrected grouping gives all 40 |
| DictionaryBuilder.BuildFromEntries | src/com/saberw/core/DictionaryBuilder.java:29-41 | Entry i pairs word i with the i-th issued code and its map frequency (0 when absent); building stops when words or codes run out |
| DictionaryBuilder.BuildDictionary | src/com/saberw/core/DictionaryBuilder.java:13-44 | Null or empty words give an empty dictionary; never more entries than words |
| DictionaryBuilder.BuildDictionaryEntries | src/com/saberw/core/DictionaryBuilder.java:13-44 | At most 6592 entries; entry i holds the i-th word ranked by frequency times length, code U+3400 + i and its frequency |
| DictionaryBuilder.BuildDictionaryRanked | src/com/saberw/core/DictionaryBuilder.java:21-27 | Entries are in non-increasing frequency-times-length order |
| DictionaryBuilder.BuildDictionaryWords | src/com/saberw/core/DictionaryBuilder.java:29-35 | Every entry's word is one of the given words |
| DictionaryBuilder.BuildDictionaryKeepsAll | src/com/saberw/core/DictionaryBuilder.java:21-41 | Up to 6592 words, the entries' words are a permutation of the input |
| DictionaryBuilder.BuildDictionaryCodes | src/com/saberw/core/DictionaryBuilder.java:29-35 | Codes are single characters in the code range, strictly increasing, pairwise distinct |
| DictionaryBuilder.AssignFromEntries | src/com/saberw/core/DictionaryBuilder.java:47-59 | Candidate i gets the i-th issued code while codes last; later candidates are untouched |
| DictionaryBuilder.AssignCodes | src/com/saberw/core/DictionaryBuilder.java:47-59 | Same length as the input |
| DictionaryBuilder.AssignCodesEntries | src/com/saberw/core/DictionaryBuilder.java:47-59 | Candidate i keeps its text and frequency and gets code U+3400 + i for i < 6592; later ones are untouched |
| DictionaryBuilder.BuildDictionaryFromCandidates | src/com/saberw/core/DictionaryBuilder.java:62-74 | Same length and order; entry i is (text, code, frequency) of candidate i |
| DictionaryBuilder.CandidatePathAgrees | src/com/saberw/core/DictionaryBuilder.java:13-74 | Assigning codes to the ranked words and then building from the candidates gives the same dictionary as `buildDictionary` |
| DictionaryBuilder.FormatLines | src/com/saberw/core/DictionaryBuilder.java:77-90 | Split at line breaks, the formatted text is the header line, one `code=word` line per entry, and the end line |
| DictionaryBuilder.FormatParses | src/com/saberw/core/DictionaryBuilder.java:77-90 | The GUI's parser reads the formatted dictionary back as the entries with frequency 0 when every line is parse-safe |
| DictionaryBuilder.FormatDictionary | src/com/saberw/core/DictionaryBuilder.java:77-90 | The text does not end with a line break, and without line breaks in codes and words it holds one per entry plus the header's (its lines: `DictionaryBuilder.FormatLines`) |
| DictionaryText.Lines | SaberW/src/com/saberw/core/gui/SaberWGUI.java:351-360 | One `code=word` line per entry, in order |
| DictionaryText.Render | SaberW/src/com/saberw/core/gui/SaberWGUI.java:351-360 | A non-empty dictionary renders to text ending with a line break, and without line breaks in codes and words the text holds exactly one per entry (its lines: `DictionaryText.SplitRender`) |
| DictionaryText.SplitAll | SaberW/src/com/saberw/core/gui/SaberWGUI.java:332 | Cutting at every separator: at least one piece, none holding the separator, the whole string when it has none |
| DictionaryText.SplitJoin | SaberW/src/com/saberw/core/gui/SaberWGUI.java:332 | Joining the pieces with the separator gives the string back |
| DictionaryText.JavaSplit | SaberW/src/com/saberw/core/gui/SaberWGUI.java:332 | Java's `split`: the pieces hold no separator, rejoined they form a prefix of the string followed only by separators |
| DictionaryText.Trim | SaberW/src/com/saberw/core/gui/SaberWGUI.java:334 | Java's `trim`: the result has no removable edge character and is unchanged on trimmed input; `=` is neither added nor lost |
| DictionaryText.FirstWord | SaberW/src/com/saberw/core/gui/SaberWGUI.java:339-342 | The text cut at the first space of the trimmed text; equals its input iff that is trimmed and holds no space |
| DictionaryText.ParseLine | SaberW/src/com/saberw/core/gui/SaberWGUI.java:334-343 | A line gives an entry iff it holds `=`; the entry has trimmed code, trimmed space-free word and frequency 0 |
| DictionaryText.ParseLines | SaberW/src/com/saberw/core/gui/SaberWGUI.java:333-346 | Each entry is a parsed one; lines without breaks give entries without breaks |
| DictionaryText.ParseDictionary | SaberW/src/com/saberw/core/gui/SaberWGUI.java:328-349 | Never fails; every entry is a parsed one without line breaks |
| DictionaryText.ParseEntryLine | SaberW/src/com/saberw/core/gui/SaberWGUI.java:328-360 | A rendered line parses back to its code and word (frequency 0) iff the code has no `=` and no edge whitespace and the word is trimmed and space-free |
| DictionaryText.SplitRender | SaberW/src/com/saberw/core/gui/SaberWGUI.java:332-357 | Split at line breaks, the rendered dictionary is its lines |
| DictionaryText.ParseLinesAll | SaberW/src/com/saberw/core/gui/SaberWGUI.java:333-346 | Lines that all hold `=` each give their entry, in order |
| DictionaryText.ParseRenderLines | SaberW/src/com/saberw/core/gui/SaberWGUI.java:328-360 | Parsing a rendering gives one entry per rendered line, the parse of that line |
| DictionaryText.ParseRender | SaberW/src/com/saberw/core/gui/SaberWGUI.java:328-360 | Parsing the rendering recovers the (code, word) pairs iff no code or word holds a line break and every entry is parse-safe |
| DictionaryText.PutAll | SaberW/src/com/saberw/core/gui/SaberWGUI.java:507-509 | The map holds the old and the new words; a new word maps to its last entry; the others keep their value |
| DictionaryText.PutAbsent | SaberW/src/com/saberw/core/gui/SaberWGUI.java:512-516 | The map holds the old and the new words; old words keep their value, a new word maps to its first entry |
| DictionaryText.Merge | SaberW/src/com/saberw/core/gui/SaberWGUI.java:500-519 | One entry per distinct word; the words are the union; a word of the first dictionary keeps its last entry there (the first dictionary wins), other words take their first entry in the second |
| DictionaryText.Optimize | SaberW/src/com/saberw/core/gui/SaberWGUI.java:520-528 | Keeps exactly the entries whose word occurs in the text |
| DictionaryText.OptimizeAppend | SaberW/src/com/saberw/core/gui/SaberWGUI.java:525-527 | Pruning keeps order: it distributes over concatenation |
| DictionaryText.OptimizeIdempotent | SaberW/src/com/saberw/core/gui/SaberWGUI.java:520-528 | Pruning twice against the same text prunes nothing more |
| DictionaryText.ExportLines | SaberW/src/com/saberw/core/gui/SaberWGUI.java:529-545 | The export's lines are the entry lines, then `___`, then the compressed text's lines, and no entry line is `___` |
| DictionaryText.ExportForBot | SaberW/src/com/saberw/core/gui/SaberWGUI.java:529-545 | The compressed text closes the export verbatim; before it, without line breaks in codes and words, there is one line break per entry and one after the separator (its lines: `DictionaryText.ExportLines`) |
| DualFormatBuilder.Arrows | SaberW/src/com/saberw/util/DualFormatBuilder.java:60 | One `code→word` item per entry, in order |
| DualFormatBuilder.QuickMessageLayout | SaberW/src/com/saberw/util/DualFormatBuilder.java:49-65 | The quick message is the text label, the text, a line break, the dictionary label and the first min(5, n) entries as `code→word` joined by `, ` |
| DualFormatBuilder.QuickMessageFirstFive | SaberW/src/com/saberw/util/DualFormatBuilder.java:57 | Entries after the fifth never reach the quick message |
| DualFormatBuilder.QuickMessage | SaberW/src/com/saberw/util/DualFormatBuilder.java:49-65 | The compressed text follows the text label verbatim and ends the first line (the listed pairs: `DualFormatBuilder.QuickMessageLayout`) |
| DualFormatBuilder.Pairs | SaberW/src/com/saberw/util/DualFormatBuilder.java:31 | One `code = word` item per entry, in order |
| DualFormatBuilder.MiniDictionaryLayout | SaberW/src/com/saberw/util/DualFormatBuilder.java:27-34 | The mini-dictionary lays out the first min(10, n) entries joined by ` | `, none after the last, with a line break after every fifth |
| DualFormatBuilder.ShortMini | SaberW/src/com/saberw/util/DualFormatBuilder.java:28-34 | Fewer than five entries make one row without a line break |
| DualFormatBuilder.OneRowMini | SaberW/src/com/saberw/util/DualFormatBuilder.java:28-34 | Exactly five entries make one row ending in a line break |
| DualFormatBuilder.TwoRowMini | SaberW/src/com/saberw/util/DualFormatBuilder.java:28-34 | Six to ten entries make two rows: the first ends in ` | ` and a line break, the second ends in a line break only when it has five entries |
| DualFormatBuilder.MiniFrom | SaberW/src/com/saberw/util/DualFormatBuilder.java:28-34 | From item i up to the limit, without line breaks in codes and words, the loop writes one line break per item position that is a multiple of five |
| DualFormatBuilder.MiniDictionary | SaberW/src/com/saberw/util/DualFormatBuilder.java:27-34 | No entries give the empty text; without line breaks in codes and words, the text holds min(10, n) / 5 line breaks, one after each full row of five (the layout: `DualFormatBuilder.MiniDictionaryLayout`) |
| DualFormatBuilder.Decimal | SaberW/src/com/saberw/util/DualFormatBuilder.java:19 | Java's decimal rendering of the savings number: non-empty, digits with a leading minus only for negatives, 0 is written `0` and no other number has a leading zero, and the digits denote the magnitude of the number |
| DualFormatBuilder.DualMessageParts | SaberW/src/com/saberw/util/DualFormatBuilder.java:13-44 | The compressed text follows the heading verbatim, followed by a blank line; the full text appears verbatim between `/*` and `*/` lines at the end |
| DualFormatBuilder.DualMessageFirstTen | SaberW/src/com/saberw/util/DualFormatBuilder.java:28 | Entries after the tenth never reach the dual message |
| DualFormatBuilder.DualMessage | SaberW/src/com/saberw/util/DualFormatBuilder.java:13-44 | The savings figure in decimal follows the banner's savings label, and the full text closes the message verbatim before the `*/` line (the other parts: `DualFormatBuilder.DualMessageParts`) |

## Left out

- The Swing front ends (layout, dialogs, tooltips, `autoConfigure`) and the clipboard methods are user interface and operating-system clipboard, not codec logic.
- `saveDictionary` and `loadDictionary` in the GUI are file I/O.
- `SimpleZipper` is a wrapper around a compression library and Base64.
- `PhraseFinder.findPhrasesWithSuffixArray` and `isOnTokenBoundary` are unfinished in the source.
- The floating-point ratio `Statistics.compressionRatio` is not modelled. `DualFormatBuilder.calculateSavings` is replaced by an integer `savings` parameter of the dual message.
- The benchmark's timing and printing are left out, and so are the `System.err` warnings of `ensureMarkerSafety` and of the code assignment. Only `findPhrasesOld` and its comparison with the optimized finder are modelled.
- The driver and test programs under `src/` and `HumanReadableCompressor` (fixed-parameter wrappers) are not modelled.
- Java `int` overflow is not modelled. Lengths, counts, frequency-times-length sort keys and the benefit formula are unbounded integers. Only `String.hashCode` wraps modulo 2^32, because bucket membership depends on it.
- A Dafny `char` is a Unicode scalar value, while Java's `length()`, `charAt` and `hashCode` work on UTF-16 units. A supplementary character (an emoji, U+1D400) is therefore one `char` in the model and two in the source, and lone surrogates cannot be represented at all. The model agrees with the source only on text from the Basic Multilingual Plane. On other text the statistics' `originalLength`, the 4- and 10-character thresholds of the validation helpers, `JavaHash` and the tokenizer's first-character test differ: for `😀 hello` the source's `originalLength` is 8 and the model's 7. All constants of the codec lie in the Basic Multilingual Plane.
- Java's Unicode tables are not fixed. Every operation takes a `CharClasses` value, and the proofs rely only on the ASCII facts of `WellFormed`.
- `HashMap` iteration order is unspecified in Java. The model iterates maps in first-occurrence order, so ties in the ranking sorts, the order of phrase candidates and the order of a merged dictionary are one admissible order, not every one.
- Null strings inside lists, null codes and a null word-frequency map are not modelled. Every list element is a string.
- Null string arguments of the GUI and message helpers are not modelled: `QuickMessage`, `DualMessage`, `ExportForBot`, `Optimize` and `Merge` take plain strings. In the source a null compressed or full text is appended as `null` (DualFormatBuilder.java:21 and :41, SaberWGUI.java:541-542), and `optimizeDictionary` throws on a null text when it calls `contains` on it (SaberWGUI.java:526).
- PhraseFinder.FindPhrasesOptimized: the contract states a non-increasing score but does not fix the order among candidates of equal score, which in the source depends on `HashMap` order.
- SaberWCore.Compress: its own contract covers only the empty text. For other texts the dictionary, the marker and the round trip are stated by `SaberWCoreProofs.PipelineDictionary`, `SaberWCoreProofs.CompressMarker` and `SaberWCoreProofs.CompressRoundTrip`. The same holds for `CompressWithPhrases`, `CompressSinglesOnly` and `CompressDefault`.
- Codec.Replace: its contract only bounds the characters of the result. Each step of the scan is stated by `Codec.ReplaceHit` and `Codec.ReplaceSkip`, and the effect under expansion by `Codec.ReplaceFromExpands`.
- SaberWCore.Decompress: its own contract fixes the result only for one-symbol dictionaries and text without group headers. Group-coded text is covered by `SaberWCoreProofs.DecodeGroup` and `SaberWCoreProofs.DecodeEncoded`, and pair codes by the findings below.
- SaberWCompressor.Decompress: its own contract fixes the result only for text without the group marker. Grouped text is covered by `SaberWCompressorProofs.DecodeGroupFixed`, `SaberWCompressorProofs.FixedRoundTrip` and `SaberWCompressorProofs.DecodeLongRun`.
- DictionaryBuilder.BuildDictionary: the source sorts the caller's `words` list in place by frequency times length (DictionaryBuilder.java:21), so the caller sees the list reordered. The model's lists are values: the function returns only the dictionary, and the sorted order it uses is the one `DictionaryBuilder.BuildDictionaryEntries` states (`SortDesc(words, ScoreKey(freq))`).
- DictionaryBuilder.BuildDictionaryFromCandidates: requires every candidate to hold a code, because an uncoded candidate would carry a null code into its entry and null codes are not modelled.
- SaberWCore.NewCore: the constructor's call of `ensureMarkerSafety` only prints warnings and is not modelled.
- Case restoration after decompression is empty in the source (`wasLowercased` is set but unused) and is not modelled.

## Findings

| source | as written | input that shows it | evidently intended | confidence | as-written member | corrected member |
|---|---|---|---|---|---|---|
| SaberW/src/com/saberw/core/SaberWCore.java:50-94 | `compress` takes `maxPhraseTokens` and `minPhraseLength` but never calls the phrase finder, so only single words are ever encoded | any text with a repeated phrase, e.g. `new york new york new york` with arguments (3, 2, 6, 5, 7): no dictionary word contains a space | phrase candidates join the word candidates | not executed | SaberWCoreProofs.CompressIgnoresPhraseArgs | SaberWCoreProofs.WithPhrasesDictionary |
| SaberW/src/com/saberw/util/ImprovedCodeGenerator.java:84-122 with SaberW/src/com/saberw/core/SaberWCore.java:335-353 | the pair stage starts only after every absent primary symbol was issued as a single, so both symbols of every pair are single codes; the decoder tries single codes first, so a pair code decodes as two words | dictionary `alpha`→U+3400, `beta`→U+3401, `gamma`→U+3400 U+3401: the coded `gamma` decodes to `alphabeta` | every issued code is read back as its own word | not executed | SaberWCoreProofs.PairCodeMisdecoded | SaberWCoreProofs.SinglesOnlyRoundTrip |
| SaberW/src/com/saberw/core/SaberWCompressor.java:131-141 | a run of more than nine codes is written as a header and its first nine codes, and then `i = j` skips the whole run | ten adjacent copies of the code for `word`: the 40-character expansion comes back as 36 characters | the remaining codes of the run are grouped or copied | not executed | SaberWCompressorProofs.TenCodesDecodeToNine | SaberWCompressorProofs.FixedRoundTrip |
| src/com/saberw/util/UnicodeHelper.java:11-13 | `isValidCodeChar` tests `c < U+4DBF`, while `CodeGenerator` issues codes up to U+4DBF inclusive | the 6592nd code of a fresh generator, U+4DBF, is rejected | the test includes U+4DBF | not executed | UnicodeHelper.LastIssuedCodeRejected | UnicodeHelper.FreshGeneratorIssues |
