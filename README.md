# Positional index and phrase queries, modelled in Dafny

The repository builds a positional inverted index with a Hadoop job and then
answers boolean phrase queries over it.

- **Step 1, the mapper.** It reads one line of a text file. It splits the line
  on `\s+` and emits one record per piece. The key is the lowercased piece and
  the value is `file@i`.
- **Step 1, the reducer.** For each key it groups those values per document
  into sorted, duplicate-free position sets. It writes them as
  `doc: p1,p2; doc2: p3`.
- **Step 2, the TF-IDF calculator.** It reads the reducer's output back, one
  `term<TAB>entries` line at a time, into two maps:
  - a positional index (term → doc → positions);
  - a TF-IDF matrix (doc → term → weight).
  It also counts the documents and builds one `Term` record per term.
- **Step 2, the query engine.** It parses a query with the five operators
  `and not`, `but not`, `or not`, `and` and `or`. It recurses on the two halves
  of a first-occurrence split. It answers each phrase with a chain of bigram
  checks on adjacent positions. It combines the document sets in place.

The model follows each stage in its own form:

- The loops of the Java code are `method`s with loop invariants.
- The mutable `HashSet`s of the query engine are objects of class `DocSet`,
  changed in place.
- Each method is proved against a specification function. The properties the
  code promises are then proved about those functions as lemmas.
- Java's library behaviour that the code relies on is written out in
  `JavaText`:
  - `String.trim`;
  - ASCII `toLowerCase`;
  - `indexOf`/`contains`;
  - `split` with its dropping of trailing empty strings;
  - `Integer.parseInt`/`toString`;
  - 32-bit `int` with wrap-around for `i + 1`.
- A cross-stage module (`IndexRoundTrip`) proves two things:
  - the mapper's values are what the reducer reads;
  - the reducer's line is loaded back by the calculator as exactly the groups
    it was written from.

Files:

- `java_text.dfy`: the Java library behaviour above.
- `index_model.dfy`: the shared types.
- `phrase_match.dfy`: the bigram check and the phrase chain.
- `query_parser.dfy`: the operators, the split and the parse tree.
- `phrase_query.dfy`: the engine object and the set combinators.
- `tfidf.dfy`: the loader, the `Term`s and the matrix, `tf_weight` and
  `padString`.
- `reducer.dfy` and `mapper.dfy`: Step 1.
- `text_round_trip.dfy` and `round_trip.dfy`: the cross-stage proofs.

### Behaviour pinned down by examples

- The phrase `x y z` over `x` at [2, 5], `y` at [3, 6] and `z` at [4] matches.
  The bigram `x y` returns 3, and `y z` from anchor 3 returns 4
  (`PhraseMatch.ContiguousPhraseMatches`).
- The chain commits to the first match of the phrase's first bigram: `a b c`
  at 5, 6, 7 is missed when `a b` also occurs at 0, 1
  (`PhraseMatch.ChainCommitsToFirstMatch`).
- An anchor of 0 means "no anchor", and the chain reads a result of 0 as a
  failure. On an index of non-negative positions, as the mapper produces,
  every successful bigram returns at least 1 (`PhraseMatch.BigramPositive`),
  so this never matters there. A result of 0 needs the first word at
  position -1, which only a hand-edited index file holds; such a match is
  rejected (`PhraseMatch.MatchAtZeroRejected`).

## Model

| member | source | states |
|---|---|---|
| `PhraseMatch.BigramSound` | Step2/PhraseQuery.java:19-47 | `isPhraseInOrder` returns -1 unless both terms are in the index. Any other result `r` is a position of term2 in the document, with `r == i + 1` for an admitted position `i` of term1. So a missing term, or one with no positions in the document, gives -1. |
| `PhraseMatch.BigramAnchored` | Step2/PhraseQuery.java:39-42 | With a non-zero anchor, a success always equals anchor + 1. |
| `PhraseMatch.BigramPositive` | Step2/PhraseQuery.java:34-60 | On an index of non-negative positions every success is at least 1, so the `> 0` test means "not -1". |
| `PhraseMatch.InnerScanSound` | Step2/PhraseQuery.java:35-43 | A hit of the inner loop is `i + 1` and lies among term2's positions. |
| `PhraseMatch.ScanSound` | Step2/PhraseQuery.java:34-46 | The result of the two loops is -1 or an admitted adjacent pair. |
| `PhraseMatch.FirstAdjacentIsFirstHit` | Step2/PhraseQuery.java:34-46 | The reference definition, with no early exit, gives -1 exactly when no admitted pair exists. Otherwise it gives the successor of the first hit in term1 order. |
| `PhraseMatch.InnerScanSorted` | Step2/PhraseQuery.java:35-43 | On ascending term2 positions, the `break` at `j > i + 1` skips no candidate. The inner loop finds `i + 1` iff `i` is admitted and `i + 1` occurs. |
| `PhraseMatch.ScanSorted` | Step2/PhraseQuery.java:34-46 | On ascending term2 positions the two loops compute the reference. |
| `PhraseMatch.BigramOnAscending` | Step2/PhraseQuery.java:19-47 | With ascending term2 positions, `isPhraseInOrder` is -1 for a missing term and the reference otherwise. |
| `PhraseMatch.ChainSound` | Step2/PhraseQuery.java:58-66 | If every bigram of the chain succeeds, the phrase occurs at consecutive positions of the document, starting at the anchor when the anchor is set. |
| `PhraseMatch.PhraseInDocSound` | Step2/PhraseQuery.java:57-68 | A document that passes the chain contains the phrase contiguously. |
| `PhraseMatch.ContiguousPhraseMatches` | Step2/PhraseQuery.java:19-68 | Concrete case: x@[2,5], y@[3,6], z@[4]. The bigrams return 3 and then 4, and `x y z` matches. |
| `PhraseMatch.ChainCommitsToFirstMatch` | Step2/PhraseQuery.java:58-66 | Concrete case: `a b c` occurs at 5, 6, 7 but is rejected. The chain commits to the first match of `a b`, which is at 0, 1. |
| `PhraseMatch.MatchAtZeroRejected` | Step2/PhraseQuery.java:39-60 | Concrete case: with the first word at -1 (only in a hand-edited index), the bigram result is 0 and the `> 0` test rejects the match. |
| `PhraseQueryEngine.PhraseQuery.IsPhraseInOrder` | Step2/PhraseQuery.java:19-47 | The nested loops, with their `break` and early returns, return exactly the bigram function `Bigram`. |
| `PhraseQueryEngine.PhraseQuery.PhraseInOrder` | Step2/PhraseQuery.java:58-66 | `flag` ends true exactly when every bigram succeeds, each threaded from the previous result and starting at anchor 0. |
| `PhraseQueryEngine.PhraseQuery.GetDocumentsForTerm` | Step2/PhraseQuery.java:50-75 | Returns a fresh set equal to `PhraseDocs`. A multi-word phrase gives the documents of the first word's `Term` that pass the chain. A single word gives its index keys, or nothing when it is absent. |
| `PhraseQueryEngine.PhraseDocsSound` | Step2/PhraseQuery.java:52-71 | Every document of a multi-word phrase is a document of its first word and contains the phrase contiguously. |
| `PhraseQueryEngine.TrimmedPhraseWords` | Step2/PhraseQuery.java:53-55 | A trimmed phrase split on spaces has a first word, so `terms[0]` is safe. One with a space has at least two words. |
| `PhraseQueryEngine.DocSet.AddAll` | Step2/PhraseQuery.java:79 | The set becomes the union. |
| `PhraseQueryEngine.DocSet.RetainAll` | Step2/PhraseQuery.java:101 | The set becomes the intersection. |
| `PhraseQueryEngine.DocSet.RemoveAll` | Step2/PhraseQuery.java:109-112 | The set becomes the difference. |
| `PhraseQueryEngine.PhraseQuery.HandleOr` | Step2/PhraseQuery.java:78-81 | `docs1` is returned, holding `docs1 ∪ docs2`. |
| `PhraseQueryEngine.PhraseQuery.HandleOrNot` | Step2/PhraseQuery.java:87-94 | `docs1` is returned, holding `docs1 ∪ (keys(tfidfMatrix) \ docs2)`, made through a temporary copy. |
| `PhraseQueryEngine.PhraseQuery.HandleAnd` | Step2/PhraseQuery.java:100-103 | `docs1` is returned, holding `docs1 ∩ docs2`. |
| `PhraseQueryEngine.PhraseQuery.HandleAndNot` | Step2/PhraseQuery.java:109-112 | `docs1` is returned, holding `docs1 \ docs2`. |
| `PhraseQueryEngine.PhraseQuery.ApplyOperator` | Step2/PhraseQuery.java:248-262 | The result is `Combine` of the old sets. For the five operators it is `term1Docs` updated in place. For any other operator it is a new empty set and `term1Docs` is unchanged. |
| `PhraseQueryEngine.CombineLaws` | Step2/PhraseQuery.java:78-112 | Within the matrix's documents: "or not" is the complement of `docs2 \ docs1`. "and not" = "but not", and its result shares no document with `docs2`. "or not" of the complement of `docs2` is "or" with `docs2`. A word that is not one of the five operators gives the empty set. |
| `PhraseQueryEngine.PhraseQuery.ProcessQuery` | Step2/PhraseQuery.java:200-213 | The recursion terminates. It returns a fresh set equal to `Eval` of the parse tree, which is well formed. |
| `PhraseQueryEngine.PhraseQuery.EvaluateQuery` | Step2/PhraseQuery.java:195-197 | Same as `processQuery`. |
| `PhraseQueryEngine.EvalWithinUniverse` | Step2/PhraseQuery.java:200-262 | When index and terms only name documents of the matrix, no query returns a document outside it. |
| `PhraseQueryEngine.PhraseQuery.GetTermFrequencyInQuery` | Step2/PhraseQuery.java:144-152 | The count is the number of query terms equal to `term` (the multiset multiplicity). |
| `PhraseQueryEngine.PhraseQuery.RankDocuments` | Step2/PhraseQuery.java:187-192 | Every matched document appears exactly once. The order is left open. |
| `PhraseQueryEngine.PhraseQuery.Search` | Step2/PhraseQuery.java:265-307 | A lowercased, trimmed query equal to an operator gives `[]`. Any other query gives each document of the lowercased query's evaluation exactly once, with no others. |
| `QueryParser.ContainsOperator` | Step2/PhraseQuery.java:216-223 | True iff some operator occurs in the query surrounded by single spaces. |
| `QueryParser.FindOperator` | Step2/PhraseQuery.java:226-234 | Returns the first operator of the list whose `" op "` occurs, and "" iff `containsOperator` is false. |
| `QueryParser.SplitQuery` | Step2/PhraseQuery.java:237-245 | The cut is at the first occurrence of `" op "`, as `indexOf` finds it: `" op "` occurs at index `left.length()` and at no smaller index. `left + " op " + right == query`, `left` holds no `" op "`, and both halves are shorter than the query. |
| `QueryParser.NoOccurrenceBeforeFirst` | Step2/PhraseQuery.java:238-240 | The text before the first occurrence holds no occurrence. |
| `QueryParser.ParseWellFormed` | Step2/PhraseQuery.java:200-262 | Every node of the parse holds one of the five operators, and every leaf is trimmed and free of operators. So the `default` branch of `applyOperator` is never reached from `processQuery`. |
| `QueryParser.NoOperatorAfterTrim` | Step2/PhraseQuery.java:202-203 | Trimming a query without an operator gives one without an operator. |
| `QueryParser.LetterIsPhrase` | Step2/PhraseQuery.java:202-203 | A single letter holds no operator and parses as a phrase. |
| `QueryParser.PriorityBeatsTextOrder` | Step2/PhraseQuery.java:200-234 | "a or b and c" parses as `(a or b) and c`. The list order decides, not the text order. |
| `TfIdfCalculator.DotEnd` | Step2/TFIDFCalculator.java:26 | The greedy `.+` stops at the first line terminator or at the end. |
| `TfIdfCalculator.DotStart` | Step2/TFIDFCalculator.java:26 | The backtracking point of `\s+`: the last dot character in the range, or none. |
| `TfIdfCalculator.FindSound` | Step2/TFIDFCalculator.java:26-31 | A match of `(\S+):\s+(.+)` found by `find` has that shape: a non-empty `\S` document name, a colon, a run of `\s`, and non-empty positions text. |
| `TfIdfCalculator.AttemptSound` | Step2/TFIDFCalculator.java:26-31 | The same, for the attempt at one start. |
| `TfIdfCalculator.MatchedFromParts` | Step2/TFIDFCalculator.java:26 | The pieces of an attempt have the pattern's shape. |
| `TfIdfCalculator.FindCanonical` | Step2/TFIDFCalculator.java:26-31 | `doc: positions`, written the way the reducer does, gives back group 1 = `doc` and group 2 = `positions`. |
| `TfIdfCalculator.ParseAll` | Step2/TFIDFCalculator.java:32-34 | Succeeds iff every piece is a number. Its list holds the pieces' values in order. |
| `TfIdfCalculator.LoadEntry` | Step2/TFIDFCalculator.java:24-41 | The body of the entry loop computes `EntryEffect`: a non-matching entry changes nothing; a bad number is the exception (`ok` false); otherwise the entry is inserted first-wins. |
| `TfIdfCalculator.LoadLine` | Step2/TFIDFCalculator.java:18-42 | One line computes `LineEffect`. A line with fewer than two tab fields leaves both maps unchanged. |
| `TfIdfCalculator.LoadIndex` | Step2/TFIDFCalculator.java:17-46 | The read loop computes `LinesEffect` from two empty maps: `ok` is false exactly when `Integer.parseInt` throws on some line, and otherwise the two maps are what the lines load. They are then `Loaded` (every term has a document, every document of the index has a row, all rows are empty), the matrix keys are exactly the documents of the matching entries, and `totalDocuments` is their number. |
| `TfIdfCalculator.LinesPreserve` | Step2/TFIDFCalculator.java:17-44 | All the lines together only extend the maps, add exactly the matched documents as rows, and keep `Loaded`. |
| `TfIdfCalculator.SkipUnmatched` | Step2/TFIDFCalculator.java:23-30 | An entry the pattern does not match is skipped, and the entries after it are still processed. |
| `TfIdfCalculator.AddEntryPreserves` | Step2/TFIDFCalculator.java:37-41 | A matching entry adds its document as a row and its positions only where `(term, doc)` was absent, replacing nothing. It keeps `Loaded`. |
| `TfIdfCalculator.AddPostingExtends` | Step2/TFIDFCalculator.java:37-39 | `computeIfAbsent(...).putIfAbsent` keeps every other term and gives the term the document. |
| `TfIdfCalculator.AddRowExtends` | Step2/TFIDFCalculator.java:40-41 | `putIfAbsent` of an empty row keeps every row and adds the document's. |
| `TfIdfCalculator.EntryPreserves` | Step2/TFIDFCalculator.java:24-41 | One entry only extends the maps, adds the matched document as a row, and keeps `Loaded`. |
| `TfIdfCalculator.EntriesPreserve` | Step2/TFIDFCalculator.java:23-42 | The same for all the entries of a line. |
| `TfIdfCalculator.LinePreserves` | Step2/TFIDFCalculator.java:18-42 | The same for a line. |
| `TfIdfCalculator.ExtendsTransitive` | Step2/TFIDFCalculator.java:17-42 | "Replaces nothing" composes across entries and lines. |
| `TfIdfCalculator.IdfInRange` | Step2/TFIDFCalculator.java:46-52 | In a loaded index every document frequency is between 1 and `totalDocuments`. |
| `TfIdfCalculator.CalcTermsTfIdf` | Step2/TFIDFCalculator.java:154-163 | Every document of the term gets a row, created if needed. That row gets the term's cell `tf_weight(|positions|) * idf` unless it already has one. Every other row is unchanged. |
| `TfIdfCalculator.AddTerm` | Step2/TFIDFCalculator.java:49-56 | One pass of the term loop records the `Term` (name, `log10(total/df)`, its doc map) and its cells. It keeps `TermsBuilt`. |
| `TfIdfCalculator.BuildTerms` | Step2/TFIDFCalculator.java:48-57 | After the loop there is one `Term` per indexed term. Each matrix row holds exactly the cells of the terms that occur in its document. |
| `TfIdfCalculator.RowsStep` | Step2/TFIDFCalculator.java:154-163 | One pass of the term loop keeps every row built. |
| `TfIdfCalculator.TfWeight` | Step2/TFIDFCalculator.java:166-170 | 0 iff `tf_raw < 1`, otherwise `1 + log10(tf_raw)`. |
| `TfIdfCalculator.PadString` | Step2/TFIDFCalculator.java:173-178 | The result is exactly `width` long. A longer `str` gives its first `width - 3` characters then "...". A shorter one gives `str` padded with spaces on the right. |
| `IndexReducer.ParseValue` | Step1/PositionalIndexReducer.java:17-19 | A value that reads as a document and a position names a document without `@`; `IndexRoundTrip.ValueRoundTrip` is its inverse. |
| `IndexReducer.ReadValue` | Step1/PositionalIndexReducer.java:17-19 | The statements compute `ParseValue`. |
| `IndexReducer.Insert` | Step1/PositionalIndexReducer.java:23 | `TreeSet.add`: stays strictly ascending, and holds the old elements and the new one. |
| `IndexReducer.AscendingUnique` | Step1/PositionalIndexReducer.java:20-31 | Two strictly ascending sequences with the same elements are equal, so the TreeSet's text depends only on the set. |
| `IndexReducer.GroupPositions` | Step1/PositionalIndexReducer.java:16-24 | `ok` iff no value throws. Then there is one key per document named, each holding exactly that document's positions, strictly ascending and without duplicates. |
| `IndexReducer.GroupStep` | Step1/PositionalIndexReducer.java:20-23 | One value keeps the map grouped. |
| `IndexReducer.AggregatePositions` | Step1/PositionalIndexReducer.java:25-32 | The text is the entries of the map, each exactly once in the HashMap's order, joined by "; " with no leading separator. |
| `IndexReducer.SerialiseAppend` | Step1/PositionalIndexReducer.java:27-31 | Appending an entry adds "; " only after the first entry. |
| `IndexReducer.StripJoin` | Step1/PositionalIndexReducer.java:31 | Removing brackets and spaces from `[p1, p2]` leaves `p1,p2`. |
| `IndexReducer.PositionsTextIsJoin` | Step1/PositionalIndexReducer.java:31 | A position list is written as the numbers joined by ",". |
| `IndexReducer.DocsHavePositions` | Step1/PositionalIndexReducer.java:20-23 | A document is named iff it has a position. |
| `IndexReducer.Reduce` | Step1/PositionalIndexReducer.java:12-35 | `ok` iff no value throws. Then `groups` has one entry per distinct document, with that document's distinct positions ascending. The output is `doc: p1,p2` per document, each once, joined by "; ". |
| `IndexMapper.Map` | Step1/PositionalIndexMapper.java:13-24 | One record per piece of the line's `\s+` split, in order. The key is the lowercased piece, free of `\s` and of upper-case letters. The value is `docId@i`, with `i` counting 0, 1, 2, … on every call. |
| `IndexMapper.Emit` | Step1/PositionalIndexMapper.java:19-23 | For any array of pieces, the loop writes one record per piece, in order: the `i`-th record is the lowercased `i`-th piece with the value `docId@i`. |
| `IndexMapper.KeysClean` | Step1/PositionalIndexMapper.java:17-20 | The lowercased pieces hold no `\s` and no upper-case letter. |
| `IndexMapper.WordsHaveNoSpace` | Step1/PositionalIndexMapper.java:17 | No piece of the split holds `\s`. |
| `IndexMapper.LeadingSpaceGivesEmptyWord` | Step1/PositionalIndexMapper.java:17 | Leading whitespace gives an empty first piece, so the first real word gets position 1. |
| `IndexMapper.BlankLineGivesNoWords` | Step1/PositionalIndexMapper.java:17 | Any non-empty line made only of `\s` characters gives no record: it splits into two empty pieces, and trailing empty pieces are dropped. |
| `JavaText.Succ` | Step2/PhraseQuery.java:36-41 | `i + 1` on a 32-bit `int`, wrapping at the maximum. |
| `JavaText.ParseIntToString` | Step1/PositionalIndexReducer.java:19 | `Integer.parseInt` reads back `Integer.toString`. |
| `JavaText.SplitJoin` | Step2/TFIDFCalculator.java:18-23 | Splitting a join on a separator absent from the parts, before trailing empty pieces are dropped, gives back the parts. |
| `IndexRoundTrip.ValueRoundTrip` | Step1/PositionalIndexMapper.java:21 | The reducer's parse of `docId@i` gives back `(docId, i)`, for a name without `@` and `i` within `int`. |
| `IndexRoundTrip.MappedValuesRead` | Step1/PositionalIndexMapper.java:19-21 | Every value of one call's records reads back as its own index. |
| `IndexRoundTrip.MappedValuesGroup` | Step1/PositionalIndexReducer.java:16-24 | The values one call emits for key `w` all parse. They name only the line's document, and its positions are exactly the indices whose piece lowercases to `w`. |
| `IndexRoundTrip.PositionsRoundTrip` | Step2/TFIDFCalculator.java:32-34 | The calculator's `split(",\\s*")` and `parseInt` read the reducer's `p1,p2,…` back as the same list. |
| `IndexRoundTrip.EntryLoads` | Step2/TFIDFCalculator.java:25-34 | A reducer entry, with or without the space left by "; ", is matched and read back as its document and positions. |
| `IndexRoundTrip.SerialisedPieces` | Step1/PositionalIndexReducer.java:26-32 | Splitting the reducer's text on ';' gives one piece per document, each loading as that document's group. |
| `IndexRoundTrip.StepsAdd` | Step2/TFIDFCalculator.java:37-39 | Adding the documents one after the other, none already under the term, gives the term the union of their groups. |
| `IndexRoundTrip.ReducerOutputLoads` | Step1/PositionalIndexReducer.java:26-33 | The line `term<TAB>reducer-text` is loaded by the calculator without error. For a new term, the term's entry in the index is exactly the reducer's groups. This holds for non-empty groups and document names with no `;` and no character up to U+0020. |
| `IndexRoundTrip.GroupsOfOneLine` | Step1/PositionalIndexReducer.java:16-24 | The reducer's groups for a key of one line: the line's document alone, with the key's indices. |
| `IndexRoundTrip.OneLineIndexed` | Step1/PositionalIndexMapper.java:13-24 | Map, group, reduce and load in sequence: the index the calculator builds for key `w` of one line holds that line's document alone, with exactly the indices at which the line's pieces lowercase to `w`. |
| `TextRoundTrip.SplitAtCommasJoin` | Step2/TFIDFCalculator.java:32 | `split(",\\s*")` of parts joined by "," gives back the parts when none holds a comma or starts with `\s`. |
| `TextRoundTrip.JoinPieces` | Step1/PositionalIndexReducer.java:27-29 | Joining by "; " is joining by ";" with a leading space on every piece but the first. |
| `TextRoundTrip.TrimLeadingSpace` | Step2/TFIDFCalculator.java:26 | `trim` removes the space the "; " separator leaves before an entry. |

## Left out

- I/O is not modelled:
  - the `BufferedReader` loop of the calculator, whose lines become a parameter of `LoadIndex`;
  - the `Scanner` loop;
  - all printing, including the display tables.
- `padString` is modelled, but the table printing that calls it is not.
- Floating point is not evaluated. IDF, `tf_weight` and their product are kept as unevaluated expressions (`Log10Ratio`, `OnePlusLog10`, `TfIdf`). This leaves out:
  - the query vector, vector lengths and cosine similarity;
  - the descending sort of `rankDocuments`.
- `PhraseQueryEngine.PhraseQuery.RankDocuments`: states only that every matched document appears once, not the order by similarity, because the scores are floating point.
- `PhraseQueryEngine.PhraseQuery.Search`: the same; the result order is left open.
- Hadoop plumbing is not modelled:
  - `Context.write`, `FileSplit` and the reused `Text` fields;
  - the file name, which becomes the parameter `docId`;
  - the shuffle, which is modelled only for the records of one call to `map`, through `ValuesFor`.
- Hash iteration order is a nondeterministic choice. The reducer returns the entry order it chose as an extra output, and its properties hold for every order.
- Java strings are UTF-16 units; here they are `seq<char>`. `toLowerCase` is modelled for ASCII letters only.
- `Integer.parseInt` is modelled for ASCII digits with an optional sign and the 32-bit range.
- `IndexMapper.Map`: does not model Unicode case mapping of `toLowerCase`, because only ASCII letters are lowered.
- Exceptions:
  - The exceptions of `parseInt` and of a value without `@` are an `ok = false` result. In the reducer those are `NumberFormatException` and `ArrayIndexOutOfBoundsException`; in the calculator they stop the program.
  - The `NullPointerException` caught in `isPhraseInOrder` is its -1 result.
- `PhraseQueryEngine.PhraseQuery.GetDocumentsForTerm`: requires a phrase with a space to have a first word (`HasFirstWord`). A phrase made of spaces alone throws in the source on `terms[0]`. `processQuery` only passes trimmed phrases, which always meet this.
- `TfIdfCalculator.PadString`: requires `width >= 1` and, for a longer string, `width >= 3`. Those are the widths for which `String.format("%-<width>s")` and `substring(0, width - 3)` do not throw.
- The regex engine is modelled only for the pattern `(\S+):\s+(.+)` under `find`, with its backtracking.
- `Term.java` is the datatype `IndexModel.Term`. Its getters are field access. Its setter and its name-only `equals` are not used by the modelled code.
- The `Term` map is filled first-wins (`putIfAbsent`) over distinct index keys. The model records each key once.
