# semantic-grep (w2vgrep) core, modelled in Dafny

w2vgrep is a grep-like tool. It does not compare text; it compares meanings.
Each token of each input line is looked up in a word2vec embedding model and
scored by cosine similarity against the query word. A line is printed when a
token scores above a threshold, with optional context lines around it. Around
the tool sit small model utilities, each of which reads or writes the same
binary word2vec format:

- a clustering tool and a synonym finder, which share one strict loader;
- a dimension reducer (principal component analysis), which loads a model and saves the reduced one;
- a converter from the FastText text format to the binary format.

This project models:

- the line matcher (`ProcessLineByLine`): token scan, first-hit rule,
  highlighting, the before-context buffer, the after-context lookahead and
  the output it prints;
- the similarity memo-cache;
- the two binary loaders (the lenient one of the grep tool and the strict
  one of the utilities), byte by byte, with their header scanning, record
  reading and error paths;
- the writer of the dimension reducer and the FastText converter, with
  round trips proved against both loaders;
- the selection rule and the pattern-file loop of the synonym finder;
- the highlighting and line-printing helpers.

Go strings are byte sequences (`seq<byte>`). A float32 is kept as its four
bytes (`Float32`), least significant first, which is exactly what
`binary.Read` and `binary.Write` with `LittleEndian` move. A similarity is a
`Score`: a real value, an infinity or NaN. The following are parameters of
the model rather than code in it:

- the cosine;
- the word segmenter;
- `strings.ToLower`;
- `strconv.ParseFloat`;
- the principal component analysis;
- the formatting of scores;
- the order in which Go walks a map. This is a ghost sequence that lists every key once (`Enumerates`). Every statement about saved output holds for every such order.

Files:

| file | module | models |
|---|---|---|
| wrappers.dfy | Wrappers | `Option` and `Result` |
| bytes.dfy | Bytes | bytes, `%d` formatting and digit runs |
| gostrings.dfy | GoStrings | `strings.TrimSpace`, `strings.Fields`, `strings.Replace`, `strings.HasSuffix`, UTF-8 white space |
| word2vec_format.dfy | Word2VecFormat | float32 bytes, `ReadString(' ')`+`TrimSpace`, `Fscanf("%d %d\n")`, the record encoding |
| utils.dfy | Utils | `ColorText`, `PrintLine` |
| similarity.dfy | Similarity | `SimilarityCache` |
| model.dfy | Model | `LoadWord2VecModel`, `GetVectorEmbedding` |
| processor.dfy | Processor | `ProcessLineByLine` |
| strict_format.dfy | StrictFormat | `LoadModel`, `GetEmbedding` and `LoadVectorModel` of the clustering and synonym tools |
| reduce_model_size.dfy | ReduceModelSize | `LoadModel`, `ReduceDimensions`, `SaveReducedModel` of the dimension reducer |
| synonym_finder.dfy | SynonymFinder | `findSimilarWords`, `findSimilarWordsForPatterns` |
| fasttext_to_bin.dfy | FastTextToBin | `convertFastTextToWord2Vec` |

Each loop of the source is a method with a `while` loop. The method is proved
to compute a specification function: `ReadRecords` computes `LenientRecords`,
`ScanLines` computes `Render(Groups(..))`, and so on. The properties are then
proved about those functions. Objects whose fields the source updates are
classes: `SimilarityCache`, the two `VecModel32bit` classes.

## Model

| member | source | states |
|---|---|---|
| Bytes.FormatNat | model_processing_utils/reduce-model-size/PCA-dimension-reduction.go:149 | `%d` of a non-negative number is a non-empty run of decimal digits with no leading zero |
| Bytes.FormatInt | model_processing_utils/fasttext-to-bin.go:64 | `%d` of a negative number is a minus sign followed by the digits of its magnitude; otherwise the digits alone |
| Bytes.DigitsValueOfFormatNat | model_processing_utils/reduce-model-size/PCA-dimension-reduction.go:149 | the digits `%d` prints denote the number printed |
| Bytes.DigitsValue | modules/model/model.go:33 | definition: the number a run of decimal digits denotes, as `%d` reads it (read back by `DigitsValueOfFormatNat`) |
| Bytes.DigitEnd | modules/model/model.go:33 | the run of digits `%d` consumes ends at the first non-digit: everything before it is a digit |
| GoStrings.RuneWidth | modules/model/model.go:45 | a UTF-8 rune takes 1 to 4 bytes and lies inside the string |
| GoStrings.SpaceWidth | modules/model/model.go:45 | the white-space rune at an index takes at most 3 bytes inside the string (0 when none starts there) |
| GoStrings.TrimSpaceTrims | modules/model/model.go:45 | `TrimSpace` yields a slice of its input with no white space at either end, and what it removes is white space |
| GoStrings.TrimSpace | modules/model/model.go:45 | `strings.TrimSpace`: never longer than its input (its slice and trimming properties in `TrimSpaceTrims`) |
| GoStrings.TrimLeft | modules/model/model.go:45 | the leading white space `TrimSpace` removes: never longer than its input (see `TrimLeftTrims`) |
| GoStrings.TrimRight | modules/model/model.go:45 | the trailing white space `TrimSpace` removes: never longer than its input (see `TrimRightTrims`) |
| GoStrings.TrimLeftTrims | modules/model/model.go:45 | trimming on the left drops a prefix and leaves no white space in front |
| GoStrings.TrimRightTrims | modules/model/model.go:45 | trimming on the right drops a suffix and leaves no white space at the end |
| GoStrings.TrimSpaceOfTrimmed | model_processing_utils/synonym-finder.go:173 | trimming is idempotent: a string with no white space at either end is unchanged |
| GoStrings.NoLeadingSpaceOfPrefix | model_processing_utils/synonym-finder.go:173 | a prefix of a string that does not start with white space does not either |
| GoStrings.SkipSpaces | model_processing_utils/fasttext-to-bin.go:48 | skipping white space stops at the end or where no white space starts |
| GoStrings.FieldEnd | model_processing_utils/fasttext-to-bin.go:71 | a field runs up to the first white space and holds none |
| GoStrings.Fields | model_processing_utils/fasttext-to-bin.go:71 | `strings.Fields` yields only non-empty fields |
| GoStrings.IndexOf | modules/model/model.go:41 | the index found holds the byte sought, or is the end |
| GoStrings.IndexOfSkips | modules/model/model.go:41 | no byte before the index found is the byte sought |
| GoStrings.IndexOfFirst | modules/model/model.go:41 | the first occurrence is the index found |
| GoStrings.ReplaceAllAbsent | modules/processor/processor.go:73 | `strings.Replace(.., -1)` changes nothing when the pattern does not occur |
| GoStrings.ReplaceAllAtFront | modules/processor/processor.go:73 | an occurrence at the front is replaced and the rest is replaced after it: the whole token becomes its red form |
| GoStrings.ReplaceAll | modules/processor/processor.go:73 | definition of `strings.Replace(s, old, new, -1)`: non-overlapping occurrences left to right, an empty pattern matching before every rune (properties in `ReplaceAllAbsent`, `ReplaceAllAtFront`) |
| GoStrings.HasSuffix | model_processing_utils/cluster.go:129 | definition of `strings.HasSuffix`, used by `LoadVectorModel` |
| Word2VecFormat.EncodeVector | model_processing_utils/reduce-model-size/PCA-dimension-reduction.go:161-166 | a vector is written as 4 bytes per component |
| Word2VecFormat.EncodeVectorAt | model_processing_utils/reduce-model-size/PCA-dimension-reduction.go:162 | byte `j` of component `k` sits at index `4k + j`, little-endian |
| Word2VecFormat.ReadVector | modules/model/model.go:47-53 | reading `dim` floats succeeds exactly when `4 * dim` bytes remain, and yields `dim` components |
| Word2VecFormat.FloatAtOfEncoded | modules/model/model.go:49 | the float read where a component was written is that component |
| Word2VecFormat.ReadVectorAt | modules/model/model.go:47-53 | a written vector reads back as itself (little-endian round trip) |
| Word2VecFormat.ReadWord | modules/model/model.go:41-45 | a word read stops just after a space |
| Word2VecFormat.ReadWordStopsAtFirstSpace | modules/model/model.go:41-44 | reading a word fails exactly when no space is left, and stops at the first space |
| Word2VecFormat.ReadWordIsPlain | model_processing_utils/cluster.go:81-85 | every word a loader reads is plain: no space inside, no white space at either end |
| Word2VecFormat.TrimmedUpToSpace | model_processing_utils/cluster.go:81-85 | the text up to the first space, trimmed, holds no space |
| Word2VecFormat.TrimPlainWordSpace | model_processing_utils/cluster.go:85 | a plain word and the space after it trim back to the word |
| Word2VecFormat.TrimNewlinePlainWordSpace | modules/model/model.go:45 | a plain word behind the previous record's newline trims back to the word (the newline is dropped) |
| Word2VecFormat.ReadPlainWord | modules/model/model.go:41-45 | a plain word followed by a space is read back exactly |
| Word2VecFormat.ReadPlainWordAfterNewline | modules/model/model.go:41-45 | a plain word after a leftover newline is read back exactly |
| Word2VecFormat.ReadWordAt | modules/model/model.go:41-45 | the word read is the trimmed text up to and including the first space |
| Word2VecFormat.SkipBlanks | modules/model/model.go:33 | `Fscanf` skips blanks up to a newline or a non-blank |
| Word2VecFormat.ScanInt | modules/model/model.go:33 | `%d` never moves backwards, and a scanned value fits in Go's 64-bit `int` |
| Word2VecFormat.MatchSpace | modules/model/model.go:33 | matching the space of the format never moves backwards or past the end |
| Word2VecFormat.MatchNewline | modules/model/model.go:33 | matching the closing newline never moves backwards or past the end |
| Word2VecFormat.ScanHeader | modules/model/model.go:32-33 | the header scan ends inside the input, and a non-zero vocabulary size means the first `%d` scanned |
| Word2VecFormat.ScanAfterVocab | modules/model/model.go:33 | once the vocabulary size is scanned it is kept, whatever fails after it |
| Word2VecFormat.ScanDimension | modules/model/model.go:33 | the vocabulary size is kept while the dimension is scanned |
| Word2VecFormat.ScanHeaderEnd | modules/model/model.go:33 | both sizes are kept while the newline is matched |
| Word2VecFormat.DigitNotSpace | modules/model/model.go:33 | a digit is not white space |
| Word2VecFormat.ScanIntOfFormatNat | modules/model/model.go:33 | `%d` scans back a printed number followed by a non-digit |
| Word2VecFormat.ScanHeaderOfFormat | model_processing_utils/reduce-model-size/PCA-dimension-reduction.go:149 | the header the writers print scans back whole, as its two numbers, whatever follows it |
| Word2VecFormat.HeaderBytes | model_processing_utils/reduce-model-size/PCA-dimension-reduction.go:149 | a printed header is its two numbers, a space between them and a newline |
| Word2VecFormat.ScanHeaderAt | model_processing_utils/cluster.go:66-70 | numbers, a space and a newline scan as a complete header |
| Word2VecFormat.ScanAfterVocabAt | model_processing_utils/cluster.go:66-70 | after the first number, a space, a number and a newline complete the header |
| Word2VecFormat.ScanDimensionAt | model_processing_utils/cluster.go:66-70 | a number and a newline complete the header |
| Word2VecFormat.MatchSingleSpace | model_processing_utils/cluster.go:67 | one space before a digit matches the format's space |
| Word2VecFormat.MatchNewlineAt | model_processing_utils/cluster.go:67 | a newline matches the end of the format |
| Word2VecFormat.EncodeRecord | model_processing_utils/reduce-model-size/PCA-dimension-reduction.go:155-172 | a saved record is the word, a space, 4 bytes per component and a newline |
| Word2VecFormat.UniformOfAll | model_processing_utils/reduce-model-size/PCA-dimension-reduction.go:155-173 | records whose words are plain and whose vectors have `dim` components are uniform |
| Word2VecFormat.BytesAtSplit | model_processing_utils/reduce-model-size/PCA-dimension-reduction.go:155-172 | the bytes of a concatenation are found piece by piece |
| Word2VecFormat.RecordAtOfBytes | model_processing_utils/reduce-model-size/PCA-dimension-reduction.go:155-172 | the written bytes of a record hold its word, space, vector and newline |
| Word2VecFormat.RecordsAtOfBytes | model_processing_utils/reduce-model-size/PCA-dimension-reduction.go:155-173 | written records lie one after the other |
| Word2VecFormat.MapEntries | model_processing_utils/reduce-model-size/PCA-dimension-reduction.go:155 | the entries walked are the map's own words and vectors, in the walk's order |
| Word2VecFormat.EnumerationLength | model_processing_utils/reduce-model-size/PCA-dimension-reduction.go:148 | a walk listing every word once is as long as the map |
| Word2VecFormat.DistinctCardinality | model_processing_utils/reduce-model-size/PCA-dimension-reduction.go:148 | a list without repeats has as many distinct words as elements |
| Word2VecFormat.StoreMapEntries | model_processing_utils/cluster.go:104 | storing walked entries into part of the map gives the map on the words seen |
| Word2VecFormat.StoreEnumeration | model_processing_utils/cluster.go:104 | storing every entry of a map, in any order, rebuilds the map |
| Word2VecFormat.Store | model_processing_utils/cluster.go:104 | definition: `m.Vectors[word] = vector` for each record in turn (properties in `StoreLastWins`, `StoreUntouched`) |
| Word2VecFormat.StoreLastWins | model_processing_utils/cluster.go:104 | for a word stored more than once, the last entry's vector is the one kept |
| Word2VecFormat.StoreUntouched | model_processing_utils/cluster.go:104 | a word no entry names keeps its value, or stays absent |
| Word2VecFormat.EncodeRecords | model_processing_utils/reduce-model-size/PCA-dimension-reduction.go:155-173 | definition: the records written one after another (read back by `RecordsAtOfBytes` and the loaders' round-trip lemmas) |
| Word2VecFormat.FormatHeader | model_processing_utils/reduce-model-size/PCA-dimension-reduction.go:149 | definition of `Fprintf("%d %d\n")` (scanned back by `ScanHeaderOfFormat`) |
| Word2VecFormat.Enumerates | model_processing_utils/reduce-model-size/PCA-dimension-reduction.go:155 | what a Go `range` over a map visits: every key exactly once, in an unspecified order |
| Utils.ColorText | modules/utils/utils.go:10-19 | red and green wrap the text between a 5-byte colour sequence and the 4-byte reset (9 bytes more, text in the middle); any other colour leaves it unchanged |
| Utils.PrintLine | modules/utils/utils.go:22-27 | the output ends with the line and a newline; without numbers that is all; with numbers it starts with the number in green and a colon |
| Utils.PrintLineNumberReadsBack | modules/utils/utils.go:24 | the digits printed in a numbered line read back as the line number |
| Similarity.CacheKey | modules/similarity/similarity.go:26 | the key is the query token, a `|` and the token, in that order |
| Similarity.Above | modules/processor/processor.go:72 | definition of Go's `similarity > threshold` on a float64: strict, so a score equal to the threshold does not pass, and NaN never does (used by `FirstHitIsFirst`) |
| Similarity.CacheKeyInjective | modules/similarity/similarity.go:26 | for one query token, distinct tokens get distinct keys |
| Similarity.CacheKeyAmbiguousAcrossQueries | modules/similarity/similarity.go:26 | (`a|b`, `c`) and (`a`, `b|c`) share one key |
| Similarity.SimilarityCache.constructor | modules/similarity/similarity.go:17-21 | a new cache is empty |
| Similarity.SimilarityCache.MemoizedCalculateSimilarity | modules/similarity/similarity.go:24-43 | a key over 30 bytes is computed and nothing is cached; a present key answers from the cache unchanged; otherwise the value is computed, stored and returned; no entry is ever removed or changed, so a key keeps its first value whatever vectors later calls pass; a cache holding only true similarities answers the true similarity and stays so |
| Model.LenientRecord | modules/model/model.go:41-54 | a record read lies after its start and holds `vectorSize` components |
| Model.LenientRecordsStep | modules/model/model.go:40-55 | one turn of the loop: a failed record is the loader's error, a read one is stored and the loop goes on |
| Model.LenientRecordsFail | modules/model/model.go:42-44 | a record that fails ends loading with its error |
| Model.LenientRecordsAdvance | modules/model/model.go:54 | a record that loads is stored and the rest of the loop decides the outcome |
| Model.LenientLoad | modules/model/model.go:23-58 | an unopenable file is an error; a loaded model's size is the header's dimension; with a negative dimension no vector is held |
| Model.LenientLoadOfUnreadableHeader | modules/model/model.go:32-33 | a header whose vocabulary size does not scan is no error: the model is empty, with size 0 |
| Model.LenientLoadOfUnreadableDimension | modules/model/model.go:32-33 | a header whose vocabulary size scans but whose dimension does not keeps the vocabulary size; the dimension, and so a loaded model's size, is 0 |
| Model.LenientLoadShape | modules/model/model.go:40-54 | every word of a loaded model is plain and every vector has exactly `size` components |
| Model.LenientRecordsShape | modules/model/model.go:40-54 | the records loop only stores plain words with `vectorSize` components |
| Model.LenientRecords | modules/model/model.go:40-55 | definition: `vocabSize` turns of the record loop, storing each record, the first failure ending the load (properties in `LenientRecordsShape`, `LenientRecordsOfWritten`, `LenientDuplicateLastWins`) |
| Model.ReadFloats | modules/model/model.go:47-53 | the float loop reads exactly `ReadVector`: `vectorSize` little-endian components or nothing |
| Model.ReadRecord | modules/model/model.go:41-54 | one pass of the loop reads the record `LenientRecord` describes |
| Model.ReadRecords | modules/model/model.go:40-55 | the records loop yields the map `LenientRecords` describes (first error ends it; `LenientDuplicateLastWins` shows the last duplicate wins) |
| Model.LoadWord2VecModel | modules/model/model.go:23-58 | the loader's result is `LenientLoad` of the file: an unreadable header gives an empty model and no error (`LenientLoadOfUnreadableHeader`), every loaded vector has `size` components (`LenientLoadShape`) |
| Model.GetVectorEmbedding | modules/model/model.go:61-67 | a present token gets its stored vector; an absent one gets `Size` zeros |
| Model.LenientRecordOfFirst | modules/model/model.go:41-53 | the first record after the header reads as its word and vector |
| Model.LenientRecordOfNext | modules/model/model.go:41-53 | a later record reads as its word and vector, the previous record's newline dropped by `TrimSpace` |
| Model.LenientRecordsNext | modules/model/model.go:54 | a record that loads is stored and the loop goes on after it |
| Model.LenientRecordsOfNext | modules/model/model.go:40-55 | records written after the first load as the map of their entries, stored in order |
| Model.LenientRecordsOfWritten | modules/model/model.go:40-55 | written records load as the map storing them in order gives |
| Model.LenientDuplicateLastWins | modules/model/model.go:54 | a word written in several records loads with the vector of its last record |
| Processor.BufferLine | modules/processor/processor.go:103-111 | the two buffer slices keep equal length |
| Processor.Key | modules/processor/processor.go:36-40 | definition: with `ignoreCase` the query and each token are looked up and scored in lower case (`ScanTokens` and `ProcessLineByLine` use it; the highlight keeps the original token) |
| Processor.TokenScore | modules/processor/processor.go:70-71 | definition: the similarity of the token's embedding to the query's, both in key form |
| Processor.FirstHit | modules/processor/processor.go:60-77 | definition of the token loop (characterised by `FirstHitIsFirst`, computed by `ScanTokens`) |
| Processor.LineHit | modules/processor/processor.go:59-78 | definition: the first hit of the segmenter's tokens of a line |
| Processor.Highlight | modules/processor/processor.go:73 | definition: every occurrence of the hit token's original text replaced by its red form (`ReplaceAllAtFront`) |
| Processor.AfterEnd | modules/processor/processor.go:95-98 | definition: the after-context loop stops after `contextAfter` lines or at the end of input |
| Processor.MatchGroup | modules/processor/processor.go:81-100 | definition: what one match prints (placed by `GroupPlaced`) |
| Processor.Groups | modules/processor/processor.go:51-113 | definition of the line loop as the sequence of matches (properties in `GroupsInOrder`, `GroupsComplete`) |
| Processor.PrevEnd | modules/processor/processor.go:88-89 | definition: the last line printed before a match, after which the buffer started filling again |
| Processor.Render | modules/processor/processor.go:81-100 | definition: the matches' printed items in turn (`EmitsDelimited` for one match) |
| Processor.Text | modules/processor/processor.go:82 | definition: the bytes of each printed item, with `PrintLine` for lines and `--` for the separator |
| Processor.Hits | modules/processor/processor.go:51-78 | every line has exactly one scan result |
| Processor.FirstHitIsFirst | modules/processor/processor.go:60-77 | a line has no hit exactly when no token scores strictly above the threshold; otherwise the hit is the first such token with its own score |
| Processor.WindowAppend | modules/processor/processor.go:104-105 | appending a line without a hit keeps the buffer the lines just before the cursor |
| Processor.WindowDrop | modules/processor/processor.go:107-110 | dropping the oldest line keeps that |
| Processor.BufferLineHolds | modules/processor/processor.go:103-111 | after a line without a hit the slices have equal length and hold exactly the last `min(contextBefore, lines since the last match)` lines before the cursor (none when `contextBefore` is 0), numbered, none with a hit |
| Processor.GroupPlaced | modules/processor/processor.go:81-100 | a match prints its score, exactly `min(contextBefore, lines since the last match)` preceding hit-free lines with their own numbers, the highlighted line and then `min(contextAfter, lines left)` further lines verbatim |
| Processor.BeforePlaced | modules/processor/processor.go:84-86 | the buffered lines printed before a match are the lines just before it, oldest first, with their numbers |
| Processor.AfterPlaced | modules/processor/processor.go:95-98 | the lines printed after a match are the next `min(contextAfter, lines left)` lines, numbered on from it |
| Processor.InOrderCons | modules/processor/processor.go:51-113 | a placed match with its before-context count fixed, in front of matches in order after it, keeps them in order |
| Processor.GroupsInOrder | modules/processor/processor.go:51-113 | every match is placed as above with exactly `min(contextBefore, lines between it and the previous match's last printed line)` lines before it, and each match's first printed line follows the previous match's last one: no line is printed twice |
| Processor.GroupsComplete | modules/processor/processor.go:51-113 | every line whose tokens reach the threshold is printed as a matched line or as context after an earlier match |
| Processor.EmitsDelimited | modules/processor/processor.go:82-100 | a match prints exactly one `Similarity:` line first and exactly one `--` last, with only lines between them |
| Processor.GroupsOfMiss | modules/processor/processor.go:101-111 | a line without a hit only goes to the buffer |
| Processor.GroupsOfHit | modules/processor/processor.go:81-100 | a match prints its group, empties the buffer and scanning resumes after its last context line |
| Processor.ScanTokens | modules/processor/processor.go:60-78 | the token loop finds `FirstHit`, looking up and scoring the lower-cased form with `ignoreCase`, and the cache stays sound |
| Processor.EmitBefore | modules/processor/processor.go:84-86 | the buffered lines are printed oldest first with their own numbers |
| Processor.EmitAfter | modules/processor/processor.go:95-98 | at most `contextAfter` further lines are printed verbatim, each counted, and the counter advances by exactly that many |
| Processor.PrintMatch | modules/processor/processor.go:81-100 | a match prints the group `MatchGroup` describes, and the line counter ends after its last context line |
| Processor.ProcessLine | modules/processor/processor.go:51-112 | one turn of the loop advances the counter by at least one and keeps the output equal to the specification's |
| Processor.ScanLines | modules/processor/processor.go:43-113 | the scanner loop prints `Render(Groups(..))` of the lines, starting from an empty buffer |
| Processor.ProcessLineByLine | modules/processor/processor.go:32-119 | the whole output is the rendering of the matches the specification finds, lines numbered from 1 |
| Processor.ProcessedMatches | modules/processor/processor.go:32-119 | every match is placed, with exactly `min(contextBefore, lines since the previous group)` lines before it, and they come in input order; every line with a hit is covered |
| StrictFormat.SkipNewline | model_processing_utils/cluster.go:96-102 | at most one byte, a newline, is consumed |
| StrictFormat.StrictRecord | model_processing_utils/cluster.go:80-104 | a record read lies after its start and holds `vectorSize` components |
| StrictFormat.StrictRecords | model_processing_utils/cluster.go:80-105 | the records loop stops inside the input |
| StrictFormat.StrictLoadShape | model_processing_utils/cluster.go:56-114 | a loaded model has a positive size, and each vector has that size and each word is plain |
| StrictFormat.StrictRecordsShape | model_processing_utils/cluster.go:80-105 | the records loop only stores plain words with `vectorSize` components |
| StrictFormat.StrictRecordsFail | model_processing_utils/cluster.go:82-93 | a record that fails ends the loop with its error and the map filled so far |
| StrictFormat.StrictRecordsAdvance | model_processing_utils/cluster.go:104 | a record that loads is stored and the rest decides the outcome |
| StrictFormat.StrictRecordOfWritten | model_processing_utils/cluster.go:80-104 | a saved record reads back as its word and vector, and its newline is consumed |
| StrictFormat.StrictRecordsOfWritten | model_processing_utils/cluster.go:80-105 | saved records load as the map of their entries and the loop stops just after the last |
| StrictFormat.StrictLoadOfWritten | model_processing_utils/cluster.go:56-114 | a header and records of plain words with equal positive length load whole, with no error |
| StrictFormat.StrictLoadOfScanned | model_processing_utils/cluster.go:108-111 | a file whose records end exactly at its end loads without error |
| StrictFormat.StrictLoad | model_processing_utils/cluster.go:56-114 | definition of `LoadModel` on the file's bytes: unreadable or non-positive header rejected; records then a trailing-data check (properties in `StrictLoadShape`, `StrictLoadOfWritten`, `StrictLoadRejectsEmptyHeader`) |
| StrictFormat.StrictDuplicateLastWins | model_processing_utils/cluster.go:104 | a word written in several records loads with the vector of its last record |
| StrictFormat.BytesAtConcat | model_processing_utils/reduce-model-size/PCA-dimension-reduction.go:149-173 | header and records lie one after the other in the file |
| StrictFormat.StrictLoadRejectsEmptyHeader | model_processing_utils/cluster.go:73-75 | the header `0 0` is rejected whatever follows it |
| StrictFormat.StrictRecordsNext | model_processing_utils/cluster.go:104 | a record that loads is stored and the loop goes on after it |
| StrictFormat.ReadStrictRecord | model_processing_utils/cluster.go:81-104 | one pass reads the record `StrictRecord` describes: a missing space or a short vector is an error, one newline is consumed |
| StrictFormat.ReadStrictRecords | model_processing_utils/cluster.go:80-105 | the records loop yields `StrictRecords` |
| StrictFormat.Load | model_processing_utils/cluster.go:56-114 | loading yields `StrictLoad`: an unreadable header or a non-positive size rejects; otherwise the error is that of a record or trailing data |
| StrictFormat.VecModel32bit.constructor | model_processing_utils/cluster.go:130 | a new model is empty with size 0 |
| StrictFormat.VecModel32bit.LoadModel | model_processing_utils/cluster.go:56-114 | a rejected header leaves the model as it was; otherwise it takes the header's size and the records read before the loop stopped |
| StrictFormat.VecModel32bit.GetEmbedding | model_processing_utils/cluster.go:117-123 | a present token gets its stored vector; an absent one gets `Size` zeros |
| StrictFormat.LoadVectorModel | model_processing_utils/cluster.go:126-141 | a name not ending in `.bin` fails before any read; otherwise a model is returned exactly when `LoadModel` succeeds |
| ReduceModelSize.Projection | model_processing_utils/reduce-model-size/PCA-dimension-reduction.go:120-123 | a reduced vector has `targetDim` components |
| ReduceModelSize.Reduced | model_processing_utils/reduce-model-size/PCA-dimension-reduction.go:118-125 | the reduced map has exactly the model's words, each with `targetDim` components |
| ReduceModelSize.EncodeRecordsAppend | model_processing_utils/reduce-model-size/PCA-dimension-reduction.go:155-173 | writing one more record appends its bytes |
| ReduceModelSize.EncodeVectorAppend | model_processing_utils/reduce-model-size/PCA-dimension-reduction.go:161-166 | writing one more float appends its four bytes |
| ReduceModelSize.WriteVector | model_processing_utils/reduce-model-size/PCA-dimension-reduction.go:161-166 | the float loop writes the vector's encoding |
| ReduceModelSize.SavedLoadsStrictly | model_processing_utils/reduce-model-size/PCA-dimension-reduction.go:130-182 | a saved non-empty map of plain words and equal positive length loads back, strictly, as exactly that map, whatever the walk order |
| ReduceModelSize.SavedLoadsLeniently | modules/model/model.go:40-57 | the same file, followed by any bytes at all, loads back as the same model with the grep tool's loader: bytes after the last record are ignored |
| ReduceModelSize.SavedWithTrailingBytesRejected | model_processing_utils/cluster.go:108-111 | the same file followed by one or more bytes is rejected by the strict loader as trailing data, every record still read |
| ReduceModelSize.ReducedModelLoadsBack | model_processing_utils/reduce-model-size/PCA-dimension-reduction.go:130-182 | a loaded model reduced to a positive dimension and saved loads back as exactly the reduced vectors |
| ReduceModelSize.LenientLoadOfScanned | modules/model/model.go:23-58 | the lenient loader's model is the header's dimension and the records read |
| ReduceModelSize.VecModel32bit.constructor | model_processing_utils/reduce-model-size/PCA-dimension-reduction.go:16-20 | a new model is empty with size 0 |
| ReduceModelSize.VecModel32bit.LoadModel | model_processing_utils/reduce-model-size/PCA-dimension-reduction.go:23-81 | as the strict loader, and the reduced vectors are untouched |
| ReduceModelSize.VecModel32bit.ReduceDimensions | model_processing_utils/reduce-model-size/PCA-dimension-reduction.go:84-128 | an empty model or a size of 100 or less fails whatever `targetDim` is; a failed analysis or an unusable `targetDim` fails; otherwise the reduced map is every word projected to `targetDim` components |
| ReduceModelSize.VecModel32bit.SaveReducedModel | model_processing_utils/reduce-model-size/PCA-dimension-reduction.go:131-182 | the output is the header (count, length of the first vector met; `0 0` when empty) then every entry in walk order; a file that cannot be created gives nothing |
| ReduceModelSize.CollectWords | model_processing_utils/reduce-model-size/PCA-dimension-reduction.go:92-98 | the words slice holds exactly the model's words |
| ReduceModelSize.ProjectAll | model_processing_utils/reduce-model-size/PCA-dimension-reduction.go:118-125 | the loop builds the projection of every collected word |
| ReduceModelSize.ProjectWord | model_processing_utils/reduce-model-size/PCA-dimension-reduction.go:120-123 | the inner loop builds a word's projection |
| ReduceModelSize.WriteRecordsStep | model_processing_utils/reduce-model-size/PCA-dimension-reduction.go:155-173 | writing one more walked entry appends its record |
| ReduceModelSize.WriteRecords | model_processing_utils/reduce-model-size/PCA-dimension-reduction.go:155-173 | the records loop writes every entry once, in some walk order |
| SynonymFinder.SelectedAgainstAbove | model_processing_utils/synonym-finder.go:151 | selection is `threshold <= s < 1.0`: a score equal to the threshold is selected (unlike the grep tool's `>`), 1.0 and infinities are not, NaN never is |
| SynonymFinder.Selected | model_processing_utils/synonym-finder.go:151 | definition of `similarity >= threshold && similarity < 1.0` on a float64 |
| SynonymFinder.FindResult | model_processing_utils/synonym-finder.go:137-161 | definition of `findSimilarWords`'s output for one walk order (properties in `ReportSelects`, `ReportDistinct`, `QueryAlwaysFound`) |
| SynonymFinder.Walked | model_processing_utils/synonym-finder.go:138-149 | definition: the `range` walk visits every word once when the query has an embedding, and does not happen otherwise |
| SynonymFinder.Report | model_processing_utils/synonym-finder.go:149-158 | every report line names a word |
| SynonymFinder.ReportedWords | model_processing_utils/synonym-finder.go:149-158 | one word per report line |
| SynonymFinder.ReportSelects | model_processing_utils/synonym-finder.go:149-158 | the report names exactly the walked words whose score is selected, each with its own score, in walk order |
| SynonymFinder.ReportDistinct | model_processing_utils/synonym-finder.go:149-158 | a walk visiting each word once reports no word twice |
| SynonymFinder.QueryAlwaysFound | model_processing_utils/synonym-finder.go:138-141 | for a loaded model the query's embedding has the model's positive size, so "query word not found" never happens |
| SynonymFinder.ReportAppend | model_processing_utils/synonym-finder.go:150-157 | one more walked word adds its line exactly when it is selected |
| SynonymFinder.FindSimilarWords | model_processing_utils/synonym-finder.go:137-161 | the output is the title and the report of a walk visiting every word once, or, with no walk, the not-found error on an empty embedding |
| SynonymFinder.WalkReport | model_processing_utils/synonym-finder.go:149-158 | the loop visits every word once and prints its report |
| SynonymFinder.Patterns | model_processing_utils/synonym-finder.go:172-176 | there are no more patterns than lines |
| SynonymFinder.PatternsStep | model_processing_utils/synonym-finder.go:173-176 | one more line gives one more pattern unless it trims to nothing |
| SynonymFinder.PatternsAreTrimmed | model_processing_utils/synonym-finder.go:173-176 | every pattern is non-empty and trimmed, and every non-blank line gives one |
| SynonymFinder.PatternsNeverWarn | model_processing_utils/synonym-finder.go:178-181 | for a model of positive size no pattern prints a warning |
| SynonymFinder.FindSimilarWordsForPatterns | model_processing_utils/synonym-finder.go:164-189 | an unopenable file fails; otherwise each pattern's output follows in turn, a failure printed as a warning and the loop going on |
| SynonymFinder.AnswerPattern | model_processing_utils/synonym-finder.go:178-181 | one pattern prints its output and, on failure, a warning |
| SynonymFinder.PatternEventsAppend | model_processing_utils/synonym-finder.go:172-182 | one more pattern appends its output |
| SynonymFinder.PatternOutput | model_processing_utils/synonym-finder.go:178-181 | definition: one pattern's output, then a warning if it failed |
| SynonymFinder.PatternEvents | model_processing_utils/synonym-finder.go:172-182 | definition: every pattern's output in turn (`PatternsNeverWarn`) |
| FastTextToBin.Atoi | model_processing_utils/fasttext-to-bin.go:53-61 | a parsed integer fits in Go's `int` |
| FastTextToBin.AtoiOfFormatInt | model_processing_utils/fasttext-to-bin.go:53-66 | `Atoi` reads back every integer `%d` prints |
| FastTextToBin.Succ64 | model_processing_utils/fasttext-to-bin.go:72 | `vectorSize+1` is one more, except that the largest `int` wraps to a negative count |
| FastTextToBin.ParseComponents | model_processing_utils/fasttext-to-bin.go:84-91 | the vector exists exactly when every field parses, and holds the parsed values in order |
| FastTextToBin.EncodePacked | model_processing_utils/fasttext-to-bin.go:76-95 | a converted record is the word, one space and 4 bytes per component, with no newline |
| FastTextToBin.ConvertLineOk | model_processing_utils/fasttext-to-bin.go:70-95 | a line converts without error exactly when it has `dim+1` fields that parse, and then writes its record |
| FastTextToBin.ConvertLinesOk | model_processing_utils/fasttext-to-bin.go:69-96 | conversion ends without error exactly when every data line is accepted, and then writes one record per data line, in order (the header's count is never checked) |
| FastTextToBin.ConvertWritesHeader | model_processing_utils/fasttext-to-bin.go:64-66 | once the header parses, the output starts with `"<vocab> <dim>\n"` whatever the data lines do |
| FastTextToBin.ConvertLine | model_processing_utils/fasttext-to-bin.go:70-95 | definition of one turn of the line loop (characterised by `ConvertLineOk`) |
| FastTextToBin.ConvertLines | model_processing_utils/fasttext-to-bin.go:69-96 | definition: the lines in turn up to the first failure (characterised by `ConvertLinesOk`) |
| FastTextToBin.Convert | model_processing_utils/fasttext-to-bin.go:31-103 | definition of the whole conversion (properties in `ConvertWritesHeader`, `ConvertLinesOk`, `ConvertedModelLoads`) |
| FastTextToBin.SpaceFreeIsPlain | model_processing_utils/fasttext-to-bin.go:76 | a word without white space is plain |
| FastTextToBin.SpaceWidthOfSlice | model_processing_utils/fasttext-to-bin.go:71 | a slice has no white space where the whole string has none |
| FastTextToBin.FieldsAreSpaceFree | model_processing_utils/fasttext-to-bin.go:71 | no field holds white space |
| FastTextToBin.Entries | model_processing_utils/fasttext-to-bin.go:69-96 | one entry per accepted data line |
| FastTextToBin.LineEntryShape | model_processing_utils/fasttext-to-bin.go:76-91 | an accepted line's word is non-empty and plain and its vector has `dim` components |
| FastTextToBin.PackedEntriesOfAll | model_processing_utils/fasttext-to-bin.go:69-96 | converted entries with non-empty plain words and `dim` components are well-formed records |
| FastTextToBin.ReadPacked | model_processing_utils/fasttext-to-bin.go:76-95 | both loaders read the word and the vector of a converted record |
| FastTextToBin.PackedRecordsStart | model_processing_utils/fasttext-to-bin.go:76-82 | converted records never start with a newline |
| FastTextToBin.StrictPackedRecord | model_processing_utils/cluster.go:80-104 | the strict loader reads a converted record, consuming no byte of the next record |
| FastTextToBin.StrictPackedRecords | model_processing_utils/cluster.go:80-111 | converted records running to the end of the file load strictly as the map of their entries |
| FastTextToBin.LenientPackedRecord | modules/model/model.go:41-54 | the lenient loader reads a converted record |
| FastTextToBin.LenientPackedRecords | modules/model/model.go:40-55 | converted records load leniently as the map of their entries |
| FastTextToBin.ConvertedModelLoads | model_processing_utils/fasttext-to-bin.go:31-103 | a conversion without error whose header counts the data lines loads back, with both loaders, as the words and vectors of its lines |
| FastTextToBin.PackedFileLoads | model_processing_utils/fasttext-to-bin.go:64-95 | a header and that many converted records load whole with both loaders |
| FastTextToBin.ParseVector | model_processing_utils/fasttext-to-bin.go:84-91 | the float loop yields `ParseComponents` |
| FastTextToBin.ConvertOneLine | model_processing_utils/fasttext-to-bin.go:70-95 | one pass of the line loop yields `ConvertLine` |
| FastTextToBin.ConvertFastTextToWord2Vec | model_processing_utils/fasttext-to-bin.go:31-103 | the bytes written and the error are those of `Convert`: create, header, line, field-count and float errors in the source's order, and whatever was written before an error is kept |

## Left out

- Files, readers, writers and standard output are byte sequences. An input file is `Option<seq<byte>>`, where `None` means it does not open. Output is a sequence of events or bytes. Write and flush errors are not modelled: a `bufio.Writer` to a created file is taken to succeed.
- `bufio.Scanner` line splitting is a given `seq<seq<byte>>` of lines. This covers dropping a trailing `\r`, the 64 KiB token limit and scanner errors, none of which are modelled. `scanner.Err()` is never reported.
- The `Peek` error other than end of input, in the strict loaders, is not modelled: reading from an in-memory byte sequence cannot fail that way.
- The cosine similarity, `strings.ToLower`, the `uax29` word segmenter, `strconv.ParseFloat` and the float32 conversion are parameters. Floating-point arithmetic is outside the model, so scores are compared as reals or the NaN and infinity cases of `Score`.
- The principal component analysis (gonum) is a parameter returning the number of components found and each word's projection. A panic of the matrix library on a `targetDim` that is zero, negative or larger than the components found is the error `ProjectionPanics`.
- K-means clustering, the centroid computations, `config.go` and every `main` are not part of this model.
- The `%.4f` / `%.2f` formatting of scores is a parameter of `Processor.Text`. The synonym finder keeps the score in its events.
- The order in which Go walks a map is a ghost sequence listing every key once. Every result is proved for all such orders, so nothing relies on one.
- Model.GetVectorEmbedding: requires the token to be present or the size to be at least 0. With a negative size, `make([]float32, Size)` panics, and that panic is not represented. The lenient loader can return such a model, with no vectors, when the header scans a non-positive vocabulary size and a negative dimension.
- StrictFormat.VecModel32bit.GetEmbedding: the same requirement, for the same reason. A model the strict loader accepts always has a positive size.
- Processor.ProcessLineByLine: requires a model size of at least 0, because its first lookup panics otherwise. The same holds for the methods it calls.
- SynonymFinder.FindSimilarWordsForPatterns: requires a model size of at least 0, for the same reason.
- Model.LenientLoad: a negative dimension with a positive vocabulary size is the error `NegativeLength`. It stands for the run-time panic of `make([]float32, vectorSize)` once the first word has been read.
- FastTextToBin.ConvertFastTextToWord2Vec: the output file is bytes. Whether an empty file exists after a missing header line, as against a failed `os.Create`, is not modelled; both give no bytes and are told apart by the error. A blank data line reaches `parts[0]` only when the dimension is -1; that panic is the error `WordIndexPanics`.
- Model.LenientLoad: a positive `vectorSize` too large to allocate makes `make([]float32, vectorSize)` panic (modules/model/model.go:47); the model does not represent that panic and reports `VectorTruncated` once the input runs out. The same holds for StrictFormat.StrictLoad (model_processing_utils/cluster.go:87, model_processing_utils/synonym-finder.go:67, model_processing_utils/reduce-model-size/PCA-dimension-reduction.go:54). The converter checks the field count before its `make`, so it is not affected.
- Processor.ProcessLineByLine: the threshold is a `real`, so a NaN or infinite threshold, which the flag parsers accept, is not modelled. With such a threshold Go compares against NaN or an infinity; in particular a `+Inf` score never exceeds a `+Inf` threshold, whereas `Above(PosInf, t)` holds for every real `t`. The same holds for the synonym finder's threshold.
- The 8-bit quantized model format and an exact-lexical-match fast path appear in none of these files and are not modelled.
- The CLI entry points call `ProcessLineByLine` and `LoadVectorModel` with signatures other than the ones in modules/processor/processor.go and modules/model/model.go. The model follows the modules as written.
