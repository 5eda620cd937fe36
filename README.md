# Financial Q&A assistant: the question-answering core in Dafny

This project models the question-answering core of a small financial
document assistant. A user uploads a PDF or a spreadsheet and asks questions
about it. `modules/qa_engine.py` answers in two ways:

- `simple_qa` is a rule-based resolver.
  - For a table, it finds the first column whose lower-cased name occurs in the
    lower-cased question, and reports that column's total with thousands
    separators.
  - For text, it tries the keywords revenue, profit, expense, income and cash
    in that order, and quotes the first line that holds the first keyword
    that both the question and some line contain.
  - Any other data gets no answer.
- `advanced_qa` routes the question.
  - Text goes to a retrieval chain built over the document.
  - A table first goes to `simple_qa`; only when that finds nothing does it go
    to a language model, prompted with a fixed template and a preview of the
    first 20 rows.
  - Service failures inside the `try` blocks become warning messages.
  - Any other data gets a fixed apology.

`app.py` picks one of the two with its "Use AI" toggle.

The core is pure, so it becomes datatypes, functions and lemmas, in these modules:

- `Wrappers`: `Option` and `Result`.
- `Search`: the first-match search shared by the column and line loops. The
  keyword loop, which passes on to the next keyword when no line matches, is a
  recursion of its own in `QaEngine`.
- `Strings`: the Python string operations the code relies on, each proved
  against a reference meaning.
  - `lower` (ASCII letters).
  - `in`, proved equivalent to "some slice is equal".
  - `split("\n")`, proved inverse to `"\n".join`.
  - `strip`, over Python's exact white-space set, proved to be the unique
    slice with only white space around it and none at its ends.
- `Numbers`: `f"{n:,}"`. After the sign, the text is proved to have a comma at
  every fourth place from the right and the digits of `str(abs(n))` otherwise,
  and a parser reads the number back.
- `QaEngine`: `simple_qa`, the prompt template and `advanced_qa`.
  - The external services (index building, the retrieval chain, table
    rendering and the language model) are fields of a `Backend` record. The
    routing is proved for every possible behaviour of those services.
- `App`: the toggle of `app.py`.
- `Scenarios`: concrete questions worked out from the general lemmas.

Pandas behaviour is modelled as the code meets it.

- A cell is an integer or a string.
- Summing a column that holds any string fails. A mixed column raises inside
  `sum()`. An all-string column concatenates, and the `,` format option then
  refuses the string. Either way the exception is caught, and the answer is the "couldn’t
  calculate totals" message.
- When two columns share the name, `data[col]` is a table. Formatting its sum
  raises, which leads to the same message.
- An empty column sums to 0.

The model follows these details of the code:

- The text answer is `Here’s what I found: *<line, stripped>*`, with U+2019
  and asterisks.
- The table answer puts `**` around the column name.
- When the question holds a keyword that no line contains, the next keyword
  the question holds is tried, so the answer is not yet `None`.
- In basic mode, data that is neither a table nor text gets no answer
  (`None`). The unsupported-data message comes only from `advanced_qa`.
- In the text branch of `advanced_qa`, only the retrieval call itself is
  inside the `try`.
  - Failures at lines 53-61 escape the function: splitting, embedding or
    storing the text, and setting up the Ollama model and the `RetrievalQA`
    chain.
  - In the table branch, the `try` at lines 74-79 covers both the rendering
    of the preview and the model call.
  - `AdvancedQA` and `App.Reply` therefore return a `Result` whose `Failure`
    is an escaped exception.
- `advanced_qa` tests `if structured_answer:` for truthiness, so it is
  modelled as "Some and non-empty". `QaEngine.SimpleQA` proves that its
  answers are never empty, so the test never rejects one.

## Model

| member | source | states |
|---|---|---|
| Search.FirstIndex | modules/qa_engine.py:15-22 | the result is the index of the first element that satisfies the test, and None exactly when no element does |
| Search.FirstIndexUnique | modules/qa_engine.py:15-16 | an element that satisfies the test, after a run of elements that do not, is the one the search returns |
| Strings.Lower | modules/qa_engine.py:13 | same length, no upper-case letter left, and every character either kept or moved from A-Z to a-z |
| Strings.LowerIdempotent | modules/qa_engine.py:13 | lower-casing an already lower-cased string changes nothing |
| Strings.ContainsIsOccurs | modules/qa_engine.py:16 | the left-to-right scan used for `in` is true exactly when some slice of the haystack equals the needle |
| Strings.Split | modules/qa_engine.py:27 | at least one piece, and no piece holds the separator |
| Strings.JoinSplit | modules/qa_engine.py:27 | joining the pieces of a split with the separator gives back the original text |
| Strings.SplitJoin | modules/qa_engine.py:27 | splitting a join of separator-free pieces gives back those pieces |
| Strings.SplitNoSeparator | modules/qa_engine.py:27 | a text without the separator splits into itself alone |
| Strings.SplitPieceOccurs | modules/qa_engine.py:27 | every piece of a split occurs in the original text |
| Strings.TrimStart | modules/qa_engine.py:29 | a suffix of the input, whose dropped prefix is all white space and which does not start with white space |
| Strings.TrimEnd | modules/qa_engine.py:29 | a prefix of the input, whose dropped suffix is all white space and which does not end with white space |
| Strings.Strip | modules/qa_engine.py:29 | a slice of the input with only white space before and after it, and none at its own ends |
| Strings.StripUnique | modules/qa_engine.py:29 | any slice with those two properties is exactly what strip returns |
| Strings.StripOccurs | modules/qa_engine.py:29 | the stripped text occurs in the original |
| Strings.StripIdempotent | modules/qa_engine.py:29 | stripping twice gives the same as stripping once |
| Numbers.Decimal | modules/qa_engine.py:19 | `str(n)`: at least one digit, only digits, no leading zero except for 0 itself |
| Numbers.ParseDecimalOfDecimal | modules/qa_engine.py:19 | reading the decimal digits of `n` back gives `n` |
| Numbers.Grouped | modules/qa_engine.py:19 | only digits and commas, with a comma exactly at every fourth position counted from the right |
| Numbers.FormatThousands | modules/qa_engine.py:19 | a minus sign leads the text exactly when the number is negative |
| Numbers.FormatThousandsDigits | modules/qa_engine.py:19 | after its sign, the formatted text is the magnitude's digits grouped by commas |
| Numbers.FormatThousandsGrouping | modules/qa_engine.py:19 | after the sign, only digits and commas, a comma exactly at every fourth position from the right, and `str(abs(n))` once the commas are removed |
| Numbers.CommasAfterGroup | modules/qa_engine.py:19 | appending a comma and three digits keeps the comma at every fourth position from the right |
| Numbers.DecimalSplit | modules/qa_engine.py:19 | the digits of `n` are those of `n / 1000` followed by three zero-padded digits |
| Numbers.DropCommasGrouped | modules/qa_engine.py:19 | removing the separators from the grouped form leaves `str(n)` |
| Numbers.FormatThousandsRoundTrip | modules/qa_engine.py:19 | the thousands-separated text of any integer reads back as that integer |
| QaEngine.SumCells | modules/qa_engine.py:18 | the sum exists exactly when every cell is a number; an empty column sums to 0 and a single number to itself (with SumCellsAppend this fixes the value for every column) |
| QaEngine.SumCellsAppend | modules/qa_engine.py:18 | the sum of two parts of a column is the sum of their sums, and fails exactly when a part fails |
| QaEngine.ColumnTotal | modules/qa_engine.py:17-21 | the total can be formatted exactly when the name is not repeated and every cell is a number, and it is then the cells' sum |
| QaEngine.NamedInIsOccurs | modules/qa_engine.py:16 | the column test is true exactly when the lower-cased name occurs in the lower-cased question |
| QaEngine.KeywordLine | modules/qa_engine.py:24-30 | a line index it returns is a valid index into the lines |
| QaEngine.SimpleQA | modules/qa_engine.py:12-32 | data other than a table or text gets no answer, and every answer is non-empty |
| QaEngine.TableAnswerSpec | modules/qa_engine.py:14-22 | no answer exactly when no column name occurs in the question; otherwise the answer is about the first column that does: its total with separators, or, when it cannot be totalled, the failure message, with no later column tried |
| QaEngine.LineHasIsOccurs | modules/qa_engine.py:28 | the line test is true exactly when the keyword occurs in the lower-cased line |
| QaEngine.FirstLineSpec | modules/qa_engine.py:27-29 | the line search fails exactly when no lower-cased line holds the keyword, and otherwise finds the first line that does |
| QaEngine.KeywordHitIsFound | modules/qa_engine.py:26-28 | a keyword is in the question and in some line exactly when the question test passes and the line search succeeds |
| QaEngine.ChosenIsFirst | modules/qa_engine.py:25-29 | when the first keyword is in the question and in some line, it is the one used |
| QaEngine.ChosenAmongRest | modules/qa_engine.py:25-29 | when the first keyword is not, the keyword used is chosen among the remaining ones in order |
| QaEngine.KeywordLineSpec | modules/qa_engine.py:24-30 | for every keyword list: no line exactly when no keyword is in both the question and some line; otherwise the first line holding the first such keyword |
| QaEngine.TextAnswerSpec | modules/qa_engine.py:23-30 | a text gets no answer exactly when no keyword is in both the question and some line; otherwise the answer is `Here’s what I found: *…*` around the stripped first line holding the first such keyword |
| QaEngine.QuotedTextIsFromOneLine | modules/qa_engine.py:27-29 | what is quoted contains no line break and occurs in the document |
| QaEngine.SimpleQAIgnoresCase | modules/qa_engine.py:13 | the answer is the same for a question and its lower-cased form |
| QaEngine.PromptLayout | modules/qa_engine.py:35-46 | the prompt is the framing line and data heading, the context, the question heading, the question, then the instruction, with context and question at those exact positions |
| QaEngine.FillFramed | modules/qa_engine.py:35-46 | filling a template of the prompt's five-part shape puts the context and the question, as they are, between their literal neighbours |
| QaEngine.Preview | modules/qa_engine.py:75 | the preview keeps every column and its name, and cuts each column to its first min(n, 20) cells |
| QaEngine.AdvancedQA | modules/qa_engine.py:50-82 | other data gets the fixed apology; an exception escapes exactly when, for text, setting up the index and chain fails, and it carries that failure's message |
| QaEngine.DirectAnswerFirst | modules/qa_engine.py:69-72 | for a table with a direct answer, that answer is returned unchanged, whatever the services would do |
| QaEngine.ModelFallback | modules/qa_engine.py:74-79 | for a table without one, the model gets the filled-in prompt over the rendered 20-row preview; its answer is stripped, and its failure becomes the LLM warning with the message |
| QaEngine.TextUsesRetrieval | modules/qa_engine.py:52-67 | text always goes to retrieval: its answer stripped or the retrieval warning with the message, independent of the table services |
| App.Reply | app.py:66-69 | without the toggle the reply is the direct resolver's; with it, it is the routed answer, and an exception escapes exactly when one escapes there, with the same message |
| App.OtherDataReply | app.py:66-69 | other data gets no answer without the toggle and the fixed apology with it |
| App.BasicModeIsDirect | app.py:68-69 | without the toggle the reply never depends on the services and never reports an exception |
| Scenarios.RevenueTotal | modules/qa_engine.py:14-19 | a "Revenue" column of 100, 200 and 300 asked about as "what is the total revenue?" gives the total 600 |
| Scenarios.RevenueIsNoHit | modules/qa_engine.py:26-28 | "revenue" is in the question "revenue or profit?" but in no line of the text "Profit" |
| Scenarios.ProfitIsHit | modules/qa_engine.py:26-28 | "profit" is in that question and, case-insensitively, in the first line |
| Scenarios.KeywordFallThrough | modules/qa_engine.py:25-29 | so the text answer quotes that line, found through the second keyword |
| Scenarios.ProfitQuotedAsIs | modules/qa_engine.py:29 | a line with no surrounding white space is quoted unchanged |
| Scenarios.NegativeTotalGrouped | modules/qa_engine.py:19 | -1234567 is written "-1,234,567" |
| Scenarios.ThousandGrouped | modules/qa_engine.py:19 | 1234 is grouped as "1,234" |

## Left out

- QaEngine.SumCells: pandas sums `int64` columns with 64-bit wrap-around; the model adds unbounded integers.
- QaEngine.SumCells: float, NaN, boolean and missing cells are not modelled; a cell is an integer or a string.
- QaEngine.ColumnTotal: a column header that is not a string (on which `col.lower()` raises) is not modelled; every name is a string.
- Strings.Lower: `str.lower()` lower-cases the whole of Unicode; the model lower-cases A to Z only.
- QaEngine.AdvancedQA: the text splitter (chunks of 1000 characters with an overlap of 100), the sentence-transformer embeddings, the Chroma store and its `k = 3` retriever are one oracle each for "index building fails with a message" and "the retrieval chain answers or fails".
- QaEngine.AdvancedQA: the Chroma store is persisted in `.chroma`, so texts indexed earlier may be retrieved from again; the model keeps no state between questions.
- QaEngine.AdvancedQA: the Ollama `llama2` model is an oracle from prompt to answer or failure. Its output is not modelled.
- QaEngine.Preview: pandas `to_string(index=False)` rendering of the preview is an oracle from columns to text.
- QaEngine.AdvancedQA: rendering the preview is taken to succeed. In the source, an exception raised by `to_string` (line 75) is caught by the same `try` as the model call and becomes the `⚠️ LLM error: …` answer; the model does not produce that answer from a rendering failure.
- App.Reply: the Streamlit page is not modelled, including the chat history, the upload widgets, the rendering of a `None` answer and the visualisation. The document extractor (`modules/extractor.py`) is not part of this model. The PDF extractor's fallback and error strings (`modules/extractor.py`:19 and 21) reach the resolver as ordinary text data through `app.py`:35-37. The Excel extractor's error string (`modules/extractor.py`:29) is turned away at `app.py`:45-50 and never reaches it. Neither are `modules/visualizer.py` and `modules/utils.py`.
- Concurrency, timeouts and retries: the code has none, and the model has no notion of time.
