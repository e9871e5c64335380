# Word-frequency pipeline in Dafny

A Dafny model of the word-frequency program in `main.go`. The program reads a
text file line by line and normalises each line with `process`: every letter
is lowered and every other byte becomes a space. It splits the line into
tokens with `bytes.Fields` and counts each token with `incrEntry` in a
sequence of `Entry{Word, Freq}` records. Finally it sorts the records by count,
highest first, and prints the first 20.

The model does not read a file. The file's contents are a `seq<byte>`, and
every stage is a pure function:

    data → ReadLines → LineTokens → Accumulate → Rank → SelectTop

`LineTokens` applies `Fields ∘ Process` to each line, `Accumulate` folds
`IncrEntry` over the tokens, and `Pipeline.Table` is the table after the read
loop. `Pipeline.Run` is the whole chain, the model of `main` from the file's
bytes to the report.

Modules, one per stage:

- `Bytes` (bytes.dfy): the `byte` type and `Concat`.
- `Normalizer` (normalizer.dfy): `process`. This includes what it does to
  bytes at or above 0x80. main.go classifies `rune(b)`, so such a byte is
  read as a Latin-1 code point. The letters among them (0xAA, 0xB5, 0xBA, and
  0xC0–0xFF except 0xD7 and 0xF7) are lowered and written back as two UTF-8
  bytes. The pure-ASCII properties (same length, position-wise, idempotent)
  are stated for ASCII input. `Latin1LetterWidens` shows that they fail for
  a Latin-1 letter byte.
- `Tokenizer` (tokenizer.dfy): `bytes.Fields` as a split on ASCII white
  space, proved against an independent reference: `Join` of words with single
  spaces.
- `FrequencyTable` (frequency_table.dfy): `Entry`, the linear scan of
  `incrEntry` (as a function and as the index loop of main.go), the table invariant,
  and count conservation.
- `Ranking` (ranking.dfy): the sort and the 20-entry report. `sort.Slice`
  does not fix an order among equal counts. The model ranks with an insertion
  sort, so equal counts stay in table order. `RankingFreqsAgree` proves that
  every admissible ranking has the same count column, so the choice never
  changes a printed count.
- `Pipeline` (pipeline.dfy): the read loop and the whole run.

Three behaviours of the code are worth stating up front:

- The report loop reads entries 0 to 19 (main.go:47-49). With fewer than 20
  entries it prints those there are and then faults on an out-of-range
  index. `SelectTop` returns the printed prefix together with a `faulted`
  flag.
- Length is preserved exactly when the input holds no Latin-1 letter byte
  (0xAA, 0xB5, 0xBA, 0xC0–0xFF except 0xD7 and 0xF7), so always for ASCII
  input; any other byte at or above 0x80 becomes a single space.
- A final line without a trailing '\n' is dropped, because `ReadBytes`
  returns it together with `io.EOF`.

## Model

| member | source | states |
|---|---|---|
| Normalizer.Process | main.go:53-63 | every output byte is a lower-case ASCII letter, a space, or (only when the input holds a Latin-1 letter byte) a byte ≥ 0x80; output length is input length plus one per Latin-1 letter byte; input without Latin-1 letter bytes (in particular ASCII input) gives ASCII out |
| Normalizer.EncodeRune | main.go:57 | `WriteRune` emits a code point below 0x80 as itself, and one at or above 0x80 as a lead byte 0xC2/0xC3 plus a continuation byte; either way the bytes decode back to the code point |
| Normalizer.ProcessByteClassifies | main.go:56-60 | each input byte is either a non-letter and becomes exactly one space, or a letter and becomes the encoding of a lower-case letter: the byte itself, or 0x20 above it when it is upper case. Never both, never neither |
| Normalizer.ProcessAppend | main.go:55-61 | normalising a concatenation is the concatenation of the normalised parts, so each output piece depends on one input byte only |
| Normalizer.ProcessAscii | main.go:55-61 | on ASCII input: the length is kept, 'A'..'Z' become 'a'..'z' at the same position, 'a'..'z' are kept, every other byte becomes ' ' |
| Normalizer.ProcessClassifies | main.go:56-60 | on ASCII input, output byte i is a letter exactly when input byte i is a letter, and a space exactly when it is not |
| Normalizer.ProcessIdempotent | main.go:53-63 | on ASCII input, normalising twice equals normalising once |
| Normalizer.Latin1LetterWidens | main.go:56-57 | byte 0xC0 becomes the two bytes 0xC3 0xA0, and normalising that again changes it, so neither length preservation nor idempotence holds once the input contains a Latin-1 letter byte |
| Normalizer.ProcessMatches | main_test.go:24-29 | an ASCII input and an expected string that agree position by position with the lowering/space rule satisfy `process(input) == expected` |
| Normalizer.ProcessExamplePunctuation | main_test.go:18 | "Hello, World!" normalises to "hello  world " |
| Normalizer.ProcessExampleDigits | main_test.go:19 | "123ABCxyz" normalises to "   abcxyz" |
| Normalizer.ProcessExampleSymbols | main_test.go:20 | "!@#$%^&*()" normalises to ten spaces |
| Normalizer.ProcessExampleWords | main_test.go:21 | "Lorem Ipsum" normalises to "lorem ipsum" |
| Tokenizer.WordLength | main.go:40 | the leading run found is all non-space and is followed by white space or the end |
| Tokenizer.Fields | main.go:40 | every token is non-empty and contains no white space |
| Tokenizer.FieldsConcat | main.go:40 | the tokens, concatenated, are the line with its white space removed |
| Tokenizer.FieldsJoin | main.go:40 | splitting words joined by single spaces gives back exactly those words (Fields inverts Join) |
| Tokenizer.FieldsBytesFromLine | main.go:40 | every byte of every token occurs in the line |
| Tokenizer.FieldsAppend | main.go:39-40 | splitting text that ends in white space and then the rest gives the tokens of the whole, so a line end never joins or cuts a token |
| FrequencyTable.IndexOf | main.go:66-67 | the scan finds the first entry whose word equals the token, or reports that no entry has it |
| FrequencyTable.IncrEntry | main.go:65-73 | if the word is absent, the result is the old table with `Entry(word, 1)` appended; otherwise the first matching entry's count is raised by one and nothing else changes |
| FrequencyTable.IncrEntryScan | main.go:65-73 | the index loop, which returns at the first match and appends after the loop, computes `IncrEntry` |
| FrequencyTable.IncrEntryExisting | main.go:66-70 | in a valid table, the entry for an existing word has its count raised by exactly one; the length and every other entry are unchanged |
| FrequencyTable.IncrEntryNew | main.go:72 | a word not in the table is appended with count 1 after an unchanged prefix |
| FrequencyTable.IncrEntryValid | main.go:65-73 | words stay pairwise distinct and every count stays ≥ 1 |
| FrequencyTable.IncrEntryTotal | main.go:65-73 | the sum of all counts rises by exactly one |
| FrequencyTable.IncrEntryFreqOf | main.go:65-73 | the token's count rises by one and every other word's count is unchanged |
| FrequencyTable.IncrEntryWords | main.go:65-73 | the set of words becomes the old set plus the token |
| FrequencyTable.AccumulateValid | main.go:41-43 | counting a token sequence into a valid table leaves it valid |
| FrequencyTable.AccumulateTotal | main.go:41-43 | counting a token sequence raises the sum of counts by the number of tokens |
| FrequencyTable.AccumulateFreqOf | main.go:41-43 | each word's count rises by its number of occurrences among the tokens |
| FrequencyTable.AccumulateWords | main.go:41-43 | the set of words grows by exactly the set of tokens |
| FrequencyTable.IncrEntryExample | main_test.go:32-53 | {hello:2, world:1} becomes {hello:3, world:1} after "hello", then {hello:3, world:1, new:1} after "new" |
| Ranking.Insert | main.go:46 | inserting into a list sorted by count keeps it sorted and adds exactly that entry |
| Ranking.Rank | main.go:46 | the result is sorted by count, highest first, and is a permutation of the table |
| Ranking.RankingFreqsAgree | main.go:46 | any two sorted permutations of the same entries have the same length and the same count at every position |
| Ranking.SelectTop | main.go:47-49 | the report prints the leading min(20, n) entries of the ranking and faults exactly when n < 20 |
| Ranking.SelectTopIsTop | main.go:46-49 | printed counts do not increase, and no entry left out of the report has a higher count than any printed entry |
| Ranking.SelectTopIgnoresTies | main.go:46-49 | any two rankings give reports with the same fault, the same length and the same printed counts |
| Pipeline.LineEnd | main.go:32 | the first line found ends in its only '\n', and a result of 0 means the data holds no '\n' |
| Pipeline.ReadLines | main.go:31-38 | every line handed to `process` ends in its only '\n' |
| Pipeline.ReadLinesCover | main.go:31-38 | the lines read, concatenated, are a prefix of the file, and what is left is an unterminated segment holding no '\n' |
| Pipeline.UnterminatedLineDropped | main.go:32-38 | for the file "a\nb" only "a\n" is processed |
| Pipeline.LineTokensWholeText | main.go:31-43 | the tokens of the lines, one line at a time, equal the tokens of the whole read text normalised and split at once |
| Pipeline.TokensAreLowercase | main.go:39-40 | from an ASCII file, every byte of every token is a lower-case letter |
| Pipeline.TableCounts | main.go:29-44 | after the read loop the table is valid, holds one entry per distinct token, gives each its number of occurrences, and its counts sum to the number of tokens |
| Pipeline.PermutationValid | main.go:46 | reordering a valid table keeps its words distinct and its counts positive |
| Pipeline.RankKeepsCounts | main.go:46 | after the sort, every entry still carries its word's number of occurrences |
| Pipeline.ReportOfTable | main.go:45-49 | the report is sorted by count, shows each word once with its number of occurrences, leaves out no entry that outranks a printed one, and faults exactly when there are fewer than 20 distinct tokens |
| Pipeline.ReportTopOverTokens | main.go:45-49 | for a valid table counting a token sequence, no token that the report leaves out occurs more often than any printed word |
| Pipeline.RunReportLength | main.go:47-49 | for any file, the report prints min(20, d) lines, where d is the number of distinct tokens in the processed lines |
| Pipeline.RunReportTop | main.go:29-49 | for any file, no token that the report leaves out occurs more often than any printed word |
| Pipeline.RunReport | main.go:29-49 | for any file, the report prints min(20, d) lines for d distinct tokens. They are sorted by count, carry distinct words with their true occurrence counts, and no token left out occurs more often than a printed word. The run faults exactly when d < 20 |

## Left out

- Opening the file, the command-line check, the `log.Fatalf` error paths and `os.Exit` (main.go:20-28, 33-35) are I/O plumbing. The model starts from the file's bytes.
- The `fmt.Printf("%7d %-5s\n", …)` formatting (main.go:48): the report is modelled as the sequence of printed entries.
- The panic itself: the out-of-range read is modelled as `Report.faulted`, set after the entries that exist have been printed.
- `Entry.Freq` is Go's `int`, which is 32 or 64 bits wide depending on the platform. The model uses unbounded integers, so it does not model the wrap-around past 2^31−1 (or 2^63−1) that a word seen that many times would cause. The file is streamed (main.go:30-32), so a 32-bit build can reach that limit.
- Tokenizer.Fields: for input with bytes ≥ 0x80, `bytes.Fields` switches to `FieldsFunc(unicode.IsSpace)` over decoded UTF-8. The model always splits on the ASCII white-space bytes. For a processed line the two agree, since its only non-ASCII bytes encode Latin-1 letters, which are not white space. This agreement is argued, not proved, because UTF-8 decoding and the Unicode space table are not part of this model.
- Ranking.Rank: the order `sort.Slice` leaves among equal counts is not modelled. The model's insertion sort is one admissible outcome. `RankingFreqsAgree` and `SelectTopIgnoresTies` state what holds for every outcome. So the alphabetical order of ties that the end-to-end test expects (main_test.go:84-106) is not claimed.
- The end-to-end test (main_test.go:68-112) and its `captureOutput` helper (pipes, a goroutine, a `WaitGroup`) are not modelled as a concrete run; `RunReport` states, for every file, the property the test samples: min(20, d) lines of the most frequent words with their counts.
