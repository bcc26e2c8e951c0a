# NBA insights engine — string logic of the question pipeline

This project models the self-contained string logic of the NBA insights engine, a
question-answering app that turns a question about NBA data into SQL with the help
of a language model.

The model covers:

- **SQL extraction.** The query is pulled out of the first fenced ```` ```sql ```` block of a
  model response.
- **Retry wrapper.** `retry_on_null` calls the model again while it answers `None` or `""`.
- **Request-to-SQL benchmark case.** One case asks the model, extracts the query, runs it, and
  records either the rows or the error text. `is_correct` compares the expected and computed
  results.
- **Schema description.** The per-table text lists each column and its type. The database text
  joins the table texts with blank lines.
- **Entity recognition and retrieval.**
  - Span recovery: each player or team name the model extracted is located in the question,
    case-insensitively, and the exact span of the question is taken.
  - Name snapping: each span is mapped to the closest name of the player or team catalog.
  - Rewriting: the question is rewritten with the catalog spellings, players first, then teams.
  - Benchmark case: the span-to-name dictionaries are built and compared with the expected ones.

The language model, the database and the catalogs are parameters:

- a model call is the sequence of its answers to successive calls, or the two name lists it
  extracted;
- a database query is a function from the query text to its rows or an error;
- a catalog is a list of names;
- the column list of a table is a function from the table name.

Python semantics the code relies on are written out in `PyStr` and `PyDict`:

- `str.find` returns -1 when the pattern is absent, and the empty pattern is found at 0;
- slicing clamps its bounds and counts negative bounds from the end;
- `str.replace` works left to right without overlap, and an empty pattern inserts the
  replacement at every position;
- `split(sep)[0]` and `join` behave as in Python;
- `lower()` folds ASCII letters one character for one;
- string `<` is lexicographic;
- dict comprehensions keep keys in insertion order, and a repeated key keeps its first place but
  takes the last value.

Exceptions are values of `Outcomes.Error`. `Outcomes.Message` gives the text `str(exc)` produces
for each of them.

`difflib.get_close_matches(word, candidates, n=1, cutoff=0)` is modelled as follows:

- With `cutoff=0` every candidate qualifies.
- With `n=1` the library returns the `max` of the `(ratio, candidate)` tuples. So the match is
  the candidate of highest ratio, and a tie goes to the lexicographically greatest candidate.
- The ratio itself is an uninterpreted parameter.
- The only property assumed of it is `ExactMatchScoresHighest`: a candidate equal to the word
  scores strictly higher than any other candidate. Lemmas that need it take it as a
  precondition.

Three behaviours of the code differ from what a reader would first expect; the model follows
the code:

- **Ties.** A first-occurrence tie-break among equally scored candidates would be the natural
  reading of the closest-name search. The code's `max` over `(ratio, candidate)` tuples picks
  the greatest candidate string instead (`NerRetrieval.MaxFrom`).
- **Repeated lowercase forms.** The winning lowercase name is mapped back to an original
  spelling through a dict comprehension. When several catalog names share a lowercase form,
  that comprehension keeps the last of them (`NerRetrieval.ClosestNameIsBest`).
- **No closing fence.** The query is meant to run up to the closing fence. When no fence follows
  the marker, the code's `split("```")[0]` returns the whole rest of the response
  (`RequestToSqlBenchmark.ExtractSqlQuery`).

## Model

| member | source | states |
|---|---|---|
| RequestToSqlBenchmark.ExtractSqlQuery | benchmark/benchmark_request_to_sql.py:135-142 | Fails with `NoSqlQueryFound` exactly when "```sql" does not occur. Otherwise the result starts right after the first "```sql" and is a slice of the response. It holds no "```" and is followed by "```" or by the end of the response. The query never contains "```". |
| RequestToSqlBenchmark.ExtractFencedBlock | benchmark/benchmark_request_to_sql.py:141-142 | Round trip: a response made of a text without "```sql", then "```sql", a query, "```" and anything after gives back exactly that query. The query must be such that no fence starts inside it or straddles its end (so it neither holds "```" nor ends in a backtick). |
| RequestToSqlBenchmark.BlockContentIsFenceFree | benchmark/benchmark_request_to_sql.py:142 | Inside a response, the content of a block holds no "```" and the closing "```" follows it. |
| RequestToSqlBenchmark.NoBacktick | benchmark/benchmark_request_to_sql.py:141-142 | Text before the block without a backtick holds no marker, and a query without one holds no fence, so both premises of the round trip hold. |
| RequestToSqlBenchmark.ExtractSingleBlockExample | tests/test_question_to_sql.py:15-22 | "Here is your SQL query:\n```sql\nSELECT * FROM players WHERE points_per_game > 20\n```\n" yields "\nSELECT * FROM players WHERE points_per_game > 20\n". |
| RequestToSqlBenchmark.ExtractFirstOfTwoBlocksExample | tests/test_question_to_sql.py:33-44 | With two SQL blocks, only the first block's query is returned. |
| RequestToSqlBenchmark.RetryOnNull | benchmark/benchmark_request_to_sql.py:82-92 | The `while attempts < nb_retry` loop returns what the retry specification `Retry` gives, outcome and number of calls. |
| RequestToSqlBenchmark.RetryExhausted | benchmark/benchmark_request_to_sql.py:84-92 | The wrapper returns None exactly when every one of the `nb_retry` calls returned None or "". No call is made when `nb_retry <= 0`. It then made `max(nb_retry, 0)` calls. |
| RequestToSqlBenchmark.RetryStopsAtFirstKept | benchmark/benchmark_request_to_sql.py:84-87 | Otherwise it made between 1 and `nb_retry` calls and returns the last call's outcome unchanged. That call was neither None nor "", and every earlier one was. The wrapper never returns "". |
| RequestToSqlBenchmark.RetryFromFacts | benchmark/benchmark_request_to_sql.py:84-92 | The same two facts from any point of the loop where all calls so far were rejected. |
| RequestToSqlBenchmark.TestSingleCase | benchmark/benchmark_request_to_sql.py:173-196 | Never raises; the question and expected result are copied. Rows are recorded exactly when the retried call returned an answer, extraction found a query in it and the database ran that query; the response, query and rows are then those of the three stages. Otherwise the record is `ErrorResult` of the first failing stage's error: the exception a model call raised, the `TypeError` of a `None` answer, `NoSqlQueryFound`, or the database's error. |
| RequestToSqlBenchmark.ErrorResult | benchmark/benchmark_request_to_sql.py:186-194 | The `except` record copies the question and expected result, records no query, and stores the same text as computed result and LLM response: "ERROR: " followed by the exception's message, which can be read back from it. |
| RequestToSqlBenchmark.TestSingleCaseAllRejected | benchmark/benchmark_request_to_sql.py:84-92 | When all three model calls answer None or "", the case records "ERROR: argument of type 'NoneType' is not iterable". |
| RequestToSqlBenchmark.IsCorrect | benchmark/benchmark_request_to_sql.py:34-36 | A correct case has rows on both sides or text on both sides; rows are correct exactly when equal, and texts exactly when equal. |
| RequestToSqlBenchmark.TestSingleCaseOutcome | benchmark/benchmark_request_to_sql.py:34-36 | A successful case used a non-empty answer the model gave within its 3 calls; it holds "```sql" and the query holds no fence. An error case is correct exactly when the expected result is its error text. |
| QuestionToSql.GetTableDescription | app/logic/question_to_sql.py:14-20 | The `+=` loop produces the specification `TableDescription`; with no columns the result is exactly "Table: " and the table name. |
| QuestionToSql.TableDescriptionHeader | app/logic/question_to_sql.py:16 | The description begins with exactly "Table: " and the table name. |
| QuestionToSql.TableDescriptionStep | app/logic/question_to_sql.py:17-18 | Each column adds a newline followed by "  - {column}: {type}". |
| QuestionToSql.TableDescriptionLines | app/logic/question_to_sql.py:17-18 | Split at newlines, the description is the header and then one "  - {column}: {type}" line per column, in column order. This needs names and types without newlines. |
| QuestionToSql.DbDescription | app/logic/question_to_sql.py:23-27 | The description of a database without tables is "". |
| QuestionToSql.DbDescriptionPieces | app/logic/question_to_sql.py:26-27 | The description is the table descriptions joined by a blank line. There is one per distinct table name, in order of first occurrence, and each piece is exactly that table's description. |
| NerRetrieval.MaxFrom | benchmark/benchmark_ner_retrieval_pipeline.py:148-150 | The left-to-right `max` returns the running best or a scanned candidate. No scanned candidate outranks it by (ratio, string). |
| NerRetrieval.BeatsIsAbove | benchmark/benchmark_ner_retrieval_pipeline.py:148-150 | A tuple that outranks another ranks at least as high. |
| NerRetrieval.NotAboveTransitive | benchmark/benchmark_ner_retrieval_pipeline.py:148-150 | Ranking at least as high is transitive, so the running maximum stays maximal. |
| NerRetrieval.GetCloseMatch | app/logic/ner_retrieval.py:57-59 | No match exactly when there are no candidates. Otherwise the match is a candidate that no candidate outranks. |
| NerRetrieval.GetCloseMatchExact | app/logic/ner_retrieval.py:57-59 | A candidate equal to the word is the match. |
| NerRetrieval.ClosestName | app/logic/ner_retrieval.py:51-60 | Fails with the `[0]` index error exactly when the catalog is empty. Otherwise it returns a catalog member. |
| NerRetrieval.ClosestNameIsBest | app/logic/ner_retrieval.py:54-60 | No catalog name scores above the result in lowercase. The result is the last catalog name with its lowercase form. |
| NerRetrieval.LowerToOriginalSource | app/logic/ner_retrieval.py:54 | `{p.lower(): p ...}` maps each lowercase form to the last catalog name that has it. |
| NerRetrieval.LowerAllMembers | app/logic/ner_retrieval.py:58 | Every catalog name's lowercase form is a candidate. |
| NerRetrieval.ClosestNameCaseInsensitive | app/logic/ner_retrieval.py:57-58 | Names equal up to case get the same answer, and looking up the lowercased name changes nothing. |
| NerRetrieval.ClosestNameExactMatch | app/logic/ner_retrieval.py:54-60 | A name equal to a catalog name up to case is mapped to a catalog name with that lowercase form: the last such name in catalog order. |
| NerRetrieval.ClosestNameOfCatalogName | app/logic/ner_retrieval.py:63-72 | With lowercase forms distinct within the catalog, a catalog name is mapped to itself. |
| NerRetrieval.ClosestPlayerExample | tests/test_ner_retrieval.py:11 | "lebron james" is mapped to "LeBron James" in the test's four-player catalog. |
| NerRetrieval.RecoverSpan | app/logic/ner_retrieval.py:85 | When the name occurs case-insensitively, the span is the text at its first occurrence, of the name's length, and equals the name up to case. Otherwise the span is "", or the text's last character when the name is longer than a non-empty text. |
| NerRetrieval.RecoverSpanFirst | benchmark/benchmark_ner_retrieval_pipeline.py:173 | No earlier position of the text matches the name up to case. |
| NerRetrieval.RecoverSpans | app/logic/ner_retrieval.py:84-87 | One span per extracted name, same length and order. Each found name gives a span of the text equal to it up to case. A missing name gives at most one character. |
| NerRetrieval.RecoverAll | benchmark/benchmark_ner_retrieval_pipeline.py:172-175 | The recovered player and team lists have the lengths of the model's lists. |
| NerRetrieval.SubstituteSpans | app/logic/ner_retrieval.py:89-90 | One substitution loop yields `SubstituteAll`: a replace-all of each span, in order, on the text rewritten so far. A failed lookup ends it with that error. |
| NerRetrieval.ReplaceNamesInText | app/logic/ner_retrieval.py:75-94 | Yields `NormalizedText`: the spans are recovered in the original text, all player substitutions run, then all team substitutions. |
| NerRetrieval.SubstituteAllFails | app/logic/ner_retrieval.py:89-92 | A substitution loop fails, with the index error, exactly when it has a span and the catalog is empty. |
| NerRetrieval.NormalizedTextFails | app/logic/ner_retrieval.py:89-92 | The rewriting fails exactly when the model named a player and the player catalog is empty, or named a team and the team catalog is empty. |
| NerRetrieval.SubstituteAllIdentity | app/logic/ner_retrieval.py:89-92 | Spans that are their own closest name leave the text unchanged. |
| NerRetrieval.NormalizedTextFixpoint | app/logic/ner_retrieval.py:89-94 | If every recovered span is already its closest catalog name, the text comes back unchanged. This includes the case where no names were extracted. |
| NerRetrieval.NormalizedTextCanonical | app/logic/ner_retrieval.py:89-94 | A question whose spans are spelled as in the catalogs comes back unchanged, given catalogs with distinct lowercase forms. |
| NerRetrieval.NormalizedTextMissingName | app/logic/ner_retrieval.py:85-90 | A name absent from the question, and no longer than it, recovers as "". The closest name to "" is then inserted before every character and at the end, so the length becomes \|text\| + (\|text\|+1)·\|name\|. |
| PyStr.Find | benchmark/benchmark_request_to_sql.py:141 | -1 exactly when the pattern does not occur. Otherwise the index of its first occurrence. |
| PyStr.SplitHead | benchmark/benchmark_request_to_sql.py:142 | `split(sep)[0]` holds no separator. It is the text before the first separator, or the whole text when there is none. |
| PyStr.SplitHeadOfSuffix | benchmark/benchmark_request_to_sql.py:142 | Read inside the full response, `s[start:].split(sep)[0]` runs from `start` to the next separator or to the end. |
| PyStr.Slice | app/logic/ner_retrieval.py:85 | Bounds within the text give the plain slice. A negative start counts from the end, so a start of -1 with an end at or past the end gives the last character. Bounds that cross give "". |
| PyStr.Replace | app/logic/ner_retrieval.py:90 | A non-empty pattern that does not occur leaves the text unchanged. With the empty pattern the result has length \|s\| + (\|s\|+1)·\|repl\|. |
| PyStr.ReplaceFirstOccurrence | app/logic/ner_retrieval.py:90 | For a non-empty pattern, the text before its first occurrence is kept, that occurrence becomes the replacement, and the rest is replaced in turn; with the absent-pattern case this fixes replace-all as left to right and non-overlapping. |
| PyStr.Join | app/logic/question_to_sql.py:27 | The join of no parts is "". Otherwise it starts with the first part, followed by the separator when there is a second part. |
| PyStr.JoinAppend | app/logic/question_to_sql.py:27 | Each further part adds the separator and that part at the end. |
| PyStr.Lower | app/logic/ner_retrieval.py:54 | `lower()` keeps the length and folds each character on its own. |
| PyStr.LowerSlice | app/logic/ner_retrieval.py:85 | Lowering commutes with slicing. |
| PyStr.LowerIdempotent | app/logic/ner_retrieval.py:58 | Lowering twice is lowering once. |
| PyStr.ReplaceSelf | app/logic/ner_retrieval.py:90 | `s.replace(x, x) == s`, also for the empty `x`. |
| PyStr.StrLessAsymmetric | benchmark/benchmark_ner_retrieval_pipeline.py:148-150 | Of two strings compared to break a ratio tie, at most one is smaller than the other. |
| PyStr.StrNotLessTransitive | benchmark/benchmark_ner_retrieval_pipeline.py:148-150 | "Not smaller" between strings is transitive. |
| PyStr.StrLessIrreflexive | benchmark/benchmark_ner_retrieval_pipeline.py:148-150 | No string is smaller than itself. |
| PyStr.LinesConcat | app/logic/question_to_sql.py:18 | Splitting at the newline that starts a column line splits the lines. |
| PyStr.LinesSingle | app/logic/question_to_sql.py:18 | A text without a newline is a single line. |
| PyDict.FromItems | app/logic/question_to_sql.py:26 | A dict comprehension has distinct keys, exactly the generated ones. |
| PyDict.FromItemsKeys | app/logic/question_to_sql.py:26 | Its keys come in order of first generation. |
| PyDict.FromItemsLastWins | app/logic/ner_retrieval.py:54 | A key's value comes from the last pair that generated it. |
| PyDict.FromItemsValueSource | app/logic/ner_retrieval.py:54 | Every value is that of the last pair with its key. |
| PyDict.FromItemsValuesOfKeys | app/logic/question_to_sql.py:26-27 | When the values are a function of the keys, `values()` is that function over the distinct keys in order. |
| PyDict.FromItemsOfImages | benchmark/benchmark_ner_retrieval_pipeline.py:177-178 | `{k: f(k) for k in ks}` has the distinct keys of `ks` in order and maps each to `f(k)`. |
| PyDict.FirstOccurrences | app/logic/question_to_sql.py:26 | The elements of the list without repetition, and no other. |
| PyDict.FirstOccurrencesInOrder | app/logic/question_to_sql.py:26 | They come in the order in which each was first met in the list, which with the above fixes the list: the order of a dict's keys. |
| NerRetrievalBenchmark.ResolveItems | benchmark/benchmark_ner_retrieval_pipeline.py:177-178 | The comprehension's pairs fail exactly when there is a span and the catalog is empty. Otherwise they pair each span, in order, with its closest catalog name. |
| NerRetrievalBenchmark.ClosestDict | benchmark/benchmark_ner_retrieval_pipeline.py:177-178 | The comprehension raises the index error exactly when there is a span and the catalog is empty. Otherwise it is a valid dictionary whose keys are exactly the spans. |
| NerRetrievalBenchmark.IsCorrect | benchmark/benchmark_ner_retrieval_pipeline.py:54-58 | Correct exactly when each expected dictionary has the same keys as the computed one and the same value at each key; key order plays no part. |
| NerRetrievalBenchmark.ClosestDictEntries | benchmark/benchmark_ner_retrieval_pipeline.py:177-178 | When there is a span only with a non-empty catalog, the dictionary is built; it has one key per distinct span, in order of first occurrence, and maps it to its closest catalog name. |
| NerRetrievalBenchmark.TestSingleCase | benchmark/benchmark_ner_retrieval_pipeline.py:162-190 | Fails exactly when a player was extracted and the player catalog is empty, or a team was extracted and the team catalog is empty. Otherwise the expected fields are copied and the raw lists are the recovered spans. |
| NerRetrievalBenchmark.TestSingleCaseCorrect | benchmark/benchmark_ner_retrieval_pipeline.py:54-58 | When every extracted list has a non-empty catalog, the case runs, and it is correct exactly when each expected dictionary maps the recovered spans, and nothing else, to their closest catalog names. Key order plays no part. |
| NerRetrievalBenchmark.TestSingleCaseValuesInCatalog | benchmark/benchmark_ner_retrieval_pipeline.py:146-159 | Every value of the computed dictionaries is a catalog name. |

## Left out

- **Model calls.** The language model is given as its answers: `llm(k)` is the answer to the
  (k+1)-th call, and the entity extraction is the pair of name lists it produced. Prompt
  construction (`build_prompt`, `get_ner_prompt`, `make_ner_prompt`), the OpenAI client,
  structured-output parsing and the model tiers are not modelled.
- **Database access.** DuckDB is given as parameters: a query is a function from its text to rows
  or an error, a table's columns are a function from the table name, and the table list and
  catalogs are lists. The benchmark reads the catalogs once at import; the app reads them on
  every lookup. Both become the same parameter.
- **The similarity ratio.** The `difflib` ratio is an uninterpreted function, and only
  `ExactMatchScoresHighest` is assumed of it. Test cases whose answer depends on the actual
  ratio, such as "Lakers" → "Los Angeles Lakers", are outside the model.
- **Accuracy.** The accuracy of a benchmark run is a float division over the results and is not
  modelled.
- **Other I/O and entry points.** `time.sleep` between retries, logging, JSON reading and
  writing, the `__main__` loops, the Streamlit UI and the settings module are left out.
- PyStr.Lower: folds ASCII letters only, while Python's `lower()` covers all of Unicode.
- **Error messages.** Errors are kinds, with the benchmark's message text. The tests expect
  "…in text." where the benchmark raises "…in response.". The tests also import the extraction
  as `extract_sql_query` from app/logic/question_to_sql.py, which does not define it. The
  benchmark copy is the one modelled.
- RequestToSqlBenchmark.IsCorrect: compares the expected and computed values with Dafny
  equality. Python's `==` on arbitrary JSON values (for example `1 == 1.0`) is not modelled.
- **Duplicated logic.** The description functions of the request-to-SQL benchmark
  (benchmark/benchmark_request_to_sql.py:105-120) repeat app/logic/question_to_sql.py:14-27 and
  are covered by the same members.
- **A `None` answer.** The extracted name lists are taken as given lists. The model answering
  `None` for the structured output, which makes the NER pipeline raise, is not modelled.
