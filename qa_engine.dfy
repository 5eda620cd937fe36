/**
 * The question-answering decisions of modules/qa_engine.py.
 *
 * `SimpleQA` is the direct resolver: a first-match search over the columns of
 * a table, or over a fixed list of finance keywords and the lines of a text.
 * `AdvancedQA` routes a question either to that resolver or to the external
 * retrieval and language-model services, which appear here only through what
 * they return (the `Backend` record), and turns their failures into answers.
 */
module QaEngine {
  import opened Wrappers
  import opened Search
  import opened Strings
  import opened Numbers

  /** One spreadsheet cell: an integer or a piece of text. */
  datatype Cell = Num(n: int) | Str(s: string)

  /** A named column; the rows of a table are implicit, one cell per row. */
  datatype Column = Column(name: string, cells: seq<Cell>)

  /** What a question is asked about: a table read from a spreadsheet, the
      text extracted from a PDF, or a value of any other type. */
  datatype Data = Table(cols: seq<Column>) | Text(text: string) | Other

  // ===========================================================================
  // Tables: the first column whose name the question mentions

  /** The sum of the cells; None when a cell holds text, where pandas either
      raises or produces a string that the `,` format option refuses. */
  function SumCells(cells: seq<Cell>): (r: Option<int>)
    ensures r.Some? <==> forall i :: 0 <= i < |cells| ==> cells[i].Num?
    ensures cells == [] ==> r == Some(0)
    ensures |cells| == 1 && cells[0].Num? ==> r == Some(cells[0].n)
    decreases |cells|
  {
    if cells == [] then Some(0)
    else match (cells[0], SumCells(cells[1..]))
      case (Num(v), Some(t)) => Some(v + t)
      case _ => None
  }

  /** Summing is additive over a split of the column, and fails exactly when
      one of the parts fails. */
  lemma {:induction false} SumCellsAppend(a: seq<Cell>, b: seq<Cell>)
    ensures SumCells(a + b) ==
      if SumCells(a).Some? && SumCells(b).Some? then Some(SumCells(a).value + SumCells(b).value)
      else None
    decreases |a|
  {
    if a == [] {
      assert a + b == b;
    } else {
      assert (a + b)[0] == a[0] && (a + b)[1..] == a[1..] + b;
      SumCellsAppend(a[1..], b);
    }
  }

  /** No other column carries the name of column `i`. */
  predicate NameIsUnique(cols: seq<Column>, i: nat)
    requires i < |cols|
  {
    forall j :: 0 <= j < |cols| && j != i ==> cols[j].name != cols[i].name
  }

  /** `data[col].sum()`, when formatting it with thousands separators does not raise. A
      repeated name makes `data[col]` a table, whose sum is a series that
      cannot be formatted. */
  function ColumnTotal(cols: seq<Column>, i: nat): (r: Option<int>)
    requires i < |cols|
    ensures r.Some? <==> NameIsUnique(cols, i) && forall k :: 0 <= k < |cols[i].cells| ==> cols[i].cells[k].Num?
    ensures r.Some? ==> r.value == SumCells(cols[i].cells).value
  {
    if NameIsUnique(cols, i) then SumCells(cols[i].cells) else None
  }

  function TotalMessage(name: string, total: int): string
  {
    "The total value for **" + name + "** is " + FormatThousands(total) + "."
  }

  function NoTotalMessage(name: string): string
  {
    "I found the column **" + name + "**, but couldn\U{2019}t calculate totals."
  }

  /** Whether a column's lower-cased name is a substring of the (lower-cased) question. */
  function NamedIn(q: string): Column -> bool
  {
    (c: Column) => Contains(q, Lower(c.name))
  }

  /** The table branch of `simple_qa` for the lower-cased question `q`. */
  function TableAnswer(cols: seq<Column>, q: string): Option<string>
  {
    match FirstIndex(cols, NamedIn(q))
    case None => None
    case Some(i) =>
      match ColumnTotal(cols, i) {
        case Some(total) => Some(TotalMessage(cols[i].name, total))
        case None => Some(NoTotalMessage(cols[i].name))
      }
  }

  // ===========================================================================
  // Text: the first line holding the first finance keyword that applies

  /** The keywords, in the order they are tried. */
  const Keywords: seq<string> := ["revenue", "profit", "expense", "income", "cash"]

  function FoundMessage(line: string): string
  {
    "Here\U{2019}s what I found: *" + Strip(line) + "*"
  }

  /** Whether a line, lower-cased, contains the keyword `w`. */
  function LineHas(w: string): string -> bool
  {
    (line: string) => Contains(Lower(line), w)
  }

  /** The text branch of `simple_qa`, reduced to the line it quotes: for each
      keyword in `words` that the lower-cased question `q` contains, the first
      line holding it; a keyword that no line holds passes on to the next. */
  function KeywordLine(words: seq<string>, q: string, lines: seq<string>): (r: Option<nat>)
    ensures r.Some? ==> r.value < |lines|
    decreases |words|
  {
    if words == [] then None
    else if Contains(q, words[0]) then
      match FirstIndex(lines, LineHas(words[0])) {
        case Some(i) => Some(i)
        case None => KeywordLine(words[1..], q, lines)
      }
    else KeywordLine(words[1..], q, lines)
  }

  /** The answer for a text: the first line found, stripped and quoted. */
  function TextAnswer(s: string, q: string): Option<string>
  {
    var lines := Split(s, '\n');
    match KeywordLine(Keywords, q, lines)
    case Some(i) => Some(FoundMessage(lines[i]))
    case None => None
  }

  // ===========================================================================
  // simple_qa

  /** The direct resolver: an answer, or None when nothing matches. */
  function SimpleQA(question: string, data: Data): (r: Option<string>)
    ensures data.Other? ==> r.None?
    ensures r.Some? ==> r.value != ""
  {
    var q := Lower(question);
    match data
    case Table(cols) => TableAnswer(cols, q)
    case Text(s) => TextAnswer(s, q)
    case Other => None
  }

  // ---------------------------------------------------------------------------
  // What the table branch answers

  /** Column `i` is the first, in declared order, whose lower-cased name
      occurs in the lower-cased question `q`. */
  ghost predicate IsFirstMatchingColumn(cols: seq<Column>, q: string, i: int)
  {
    && 0 <= i < |cols|
    && Occurs(Lower(cols[i].name), q)
    && forall j :: 0 <= j < i ==> !Occurs(Lower(cols[j].name), q)
  }

  /** The column may be totalled: its name is not repeated and every cell is a number. */
  ghost predicate Summable(cols: seq<Column>, i: int)
  {
    && 0 <= i < |cols|
    && NameIsUnique(cols, i)
    && forall k :: 0 <= k < |cols[i].cells| ==> cols[i].cells[k].Num?
  }

  lemma NamedInIsOccurs(cols: seq<Column>, q: string)
    ensures forall j :: 0 <= j < |cols| ==> (NamedIn(q)(cols[j]) <==> Occurs(Lower(cols[j].name), q))
  {
    forall j | 0 <= j < |cols|
      ensures NamedIn(q)(cols[j]) <==> Occurs(Lower(cols[j].name), q)
    {
      ContainsIsOccurs(q, Lower(cols[j].name));
    }
  }

  /** A table gets no answer exactly when no column name occurs in the
      question; otherwise the answer is about the first column that does,
      spelled as declared: its total with thousands separators, or, when the
      total cannot be computed, the message saying so (and no later column is
      tried). */
  lemma TableAnswerSpec(question: string, cols: seq<Column>)
    ensures var q := Lower(question);
      SimpleQA(question, Table(cols)).None? <==>
        forall j :: 0 <= j < |cols| ==> !Occurs(Lower(cols[j].name), q)
    ensures var q := Lower(question);
      SimpleQA(question, Table(cols)).Some? ==> exists i :: IsFirstMatchingColumn(cols, q, i)
    ensures var q := Lower(question);
      forall i :: IsFirstMatchingColumn(cols, q, i) && Summable(cols, i) ==>
        SimpleQA(question, Table(cols)) ==
          Some("The total value for **" + cols[i].name + "** is " + FormatThousands(SumCells(cols[i].cells).value) + ".")
    ensures var q := Lower(question);
      forall i :: IsFirstMatchingColumn(cols, q, i) && !Summable(cols, i) ==>
        SimpleQA(question, Table(cols)) ==
          Some("I found the column **" + cols[i].name + "**, but couldn\U{2019}t calculate totals.")
  {
    var q := Lower(question);
    NamedInIsOccurs(cols, q);
    match FirstIndex(cols, NamedIn(q))
    case None =>
    case Some(i) =>
      assert IsFirstMatchingColumn(cols, q, i);
      forall i' | IsFirstMatchingColumn(cols, q, i') ensures i' == i {
        assert !(i' < i) && !(i < i');
      }
  }

  // ---------------------------------------------------------------------------
  // What the text branch answers

  /** Keyword `w` occurs in the question and in some lower-cased line. */
  ghost predicate KeywordHit(w: string, q: string, lines: seq<string>)
  {
    Occurs(w, q) && exists k :: 0 <= k < |lines| && Occurs(w, Lower(lines[k]))
  }

  /** `words[k]` is the first keyword, in list order, that is a hit. */
  ghost predicate IsChosenKeyword(words: seq<string>, q: string, lines: seq<string>, k: int)
  {
    && 0 <= k < |words|
    && KeywordHit(words[k], q, lines)
    && forall m :: 0 <= m < k ==> !KeywordHit(words[m], q, lines)
  }

  /** `lines[i]` is the first line, in document order, whose lower-cased form holds `w`. */
  ghost predicate IsFirstLineWith(lines: seq<string>, w: string, i: int)
  {
    && 0 <= i < |lines|
    && Occurs(w, Lower(lines[i]))
    && forall j :: 0 <= j < i ==> !Occurs(w, Lower(lines[j]))
  }

  lemma LineHasIsOccurs(lines: seq<string>, w: string)
    ensures forall j :: 0 <= j < |lines| ==> (LineHas(w)(lines[j]) <==> Occurs(w, Lower(lines[j])))
  {
    forall j | 0 <= j < |lines|
      ensures LineHas(w)(lines[j]) <==> Occurs(w, Lower(lines[j]))
    {
      ContainsIsOccurs(Lower(lines[j]), w);
    }
  }

  /** The line search finds exactly the first line holding `w`. */
  lemma FirstLineSpec(lines: seq<string>, w: string)
    ensures FirstIndex(lines, LineHas(w)).None? <==>
      forall j :: 0 <= j < |lines| ==> !Occurs(w, Lower(lines[j]))
    ensures forall i :: IsFirstLineWith(lines, w, i) <==> FirstIndex(lines, LineHas(w)) == Some(i)
  {
    LineHasIsOccurs(lines, w);
    var found := FirstIndex(lines, LineHas(w));
    forall i | IsFirstLineWith(lines, w, i) ensures found == Some(i) {
      FirstIndexUnique(lines, LineHas(w), i);
    }
  }

  /** A hit is a keyword of the question for which the line search succeeds. */
  lemma KeywordHitIsFound(w: string, q: string, lines: seq<string>)
    ensures KeywordHit(w, q, lines) <==> Contains(q, w) && FirstIndex(lines, LineHas(w)).Some?
  {
    ContainsIsOccurs(q, w);
    FirstLineSpec(lines, w);
  }

  /** When the first keyword is a hit, it is the chosen one. */
  lemma ChosenIsFirst(words: seq<string>, q: string, lines: seq<string>)
    requires words != [] && KeywordHit(words[0], q, lines)
    ensures forall k :: IsChosenKeyword(words, q, lines, k) <==> k == 0
  {
  }

  /** When the first keyword is no hit, the choice is made among the others. */
  lemma ChosenAmongRest(words: seq<string>, q: string, lines: seq<string>)
    requires words != [] && !KeywordHit(words[0], q, lines)
    ensures !IsChosenKeyword(words, q, lines, 0)
    ensures forall k :: 0 <= k < |words| - 1 ==>
      (IsChosenKeyword(words, q, lines, k + 1) <==> IsChosenKeyword(words[1..], q, lines, k))
  {
    var rest := words[1..];
    forall k | 0 <= k < |words| - 1
      ensures IsChosenKeyword(words, q, lines, k + 1) <==> IsChosenKeyword(rest, q, lines, k)
    {
      assert forall m :: 0 <= m < k ==> words[m + 1] == rest[m];
      if IsChosenKeyword(rest, q, lines, k) {
        forall m | 0 <= m < k + 1 ensures !KeywordHit(words[m], q, lines) {
          if m > 0 { assert words[m] == rest[m - 1]; }
        }
      }
    }
  }

  /** What the keyword search promises: it answers exactly when some keyword
      is a hit, and then it quotes the first line holding the first keyword
      that is a hit. */
  ghost predicate KeywordLineCorrect(words: seq<string>, q: string, lines: seq<string>)
  {
    && (KeywordLine(words, q, lines).None? <==>
         forall k :: 0 <= k < |words| ==> !KeywordHit(words[k], q, lines))
    && (KeywordLine(words, q, lines).Some? ==>
         exists k :: IsChosenKeyword(words, q, lines, k) && IsFirstLineWith(lines, words[k], KeywordLine(words, q, lines).value))
    && (forall k, i :: IsChosenKeyword(words, q, lines, k) && IsFirstLineWith(lines, words[k], i) ==>
         KeywordLine(words, q, lines) == Some(i))
  }

  lemma KeywordLineOnHit(words: seq<string>, q: string, lines: seq<string>)
    requires words != [] && KeywordHit(words[0], q, lines)
    ensures KeywordLineCorrect(words, q, lines)
  {
    var w := words[0];
    KeywordHitIsFound(w, q, lines);
    FirstLineSpec(lines, w);
    ChosenIsFirst(words, q, lines);
    var i := FirstIndex(lines, LineHas(w)).value;
    assert KeywordLine(words, q, lines) == Some(i);
    assert IsChosenKeyword(words, q, lines, 0) && IsFirstLineWith(lines, words[0], i);
  }

  /** When the first keyword is no hit, the search gives what it gives for
      the other keywords, and each of its promises carries over. */
  lemma KeywordLineOnMiss(words: seq<string>, q: string, lines: seq<string>)
    requires words != [] && !KeywordHit(words[0], q, lines)
    requires KeywordLineCorrect(words[1..], q, lines)
    ensures KeywordLineCorrect(words, q, lines)
  {
    var rest := words[1..];
    KeywordHitIsFound(words[0], q, lines);
    assert KeywordLine(words, q, lines) == KeywordLine(rest, q, lines);
    MissNone(words, q, lines);
    if KeywordLine(rest, q, lines).Some? {
      var i := KeywordLine(rest, q, lines).value;
      var k :| IsChosenKeyword(rest, q, lines, k) && IsFirstLineWith(lines, rest[k], i);
      MissSome(words, q, lines, i, k);
    }
    forall k, i | IsChosenKeyword(words, q, lines, k) && IsFirstLineWith(lines, words[k], i)
      ensures KeywordLine(words, q, lines) == Some(i)
    {
      MissAll(words, q, lines, i, k);
    }
  }

  lemma MissNone(words: seq<string>, q: string, lines: seq<string>)
    requires words != [] && !KeywordHit(words[0], q, lines)
    ensures (forall k :: 0 <= k < |words| ==> !KeywordHit(words[k], q, lines)) <==>
      (forall k :: 0 <= k < |words| - 1 ==> !KeywordHit(words[1..][k], q, lines))
  {
    var rest := words[1..];
    if forall k :: 0 <= k < |words| - 1 ==> !KeywordHit(rest[k], q, lines) {
      forall k | 0 <= k < |words| ensures !KeywordHit(words[k], q, lines) {
        if k > 0 {
          assert words[k] == rest[k - 1];
        }
      }
    }
    if forall k :: 0 <= k < |words| ==> !KeywordHit(words[k], q, lines) {
      forall k | 0 <= k < |words| - 1 ensures !KeywordHit(rest[k], q, lines) {
        assert rest[k] == words[k + 1];
      }
    }
  }

  lemma MissSome(words: seq<string>, q: string, lines: seq<string>, i: int, k: int)
    requires words != [] && !KeywordHit(words[0], q, lines)
    requires IsChosenKeyword(words[1..], q, lines, k) && IsFirstLineWith(lines, words[1..][k], i)
    ensures IsChosenKeyword(words, q, lines, k + 1) && IsFirstLineWith(lines, words[k + 1], i)
  {
    ChosenAmongRest(words, q, lines);
  }

  lemma MissAll(words: seq<string>, q: string, lines: seq<string>, i: int, k: int)
    requires words != [] && !KeywordHit(words[0], q, lines)
    requires IsChosenKeyword(words, q, lines, k) && IsFirstLineWith(lines, words[k], i)
    ensures k != 0 && IsChosenKeyword(words[1..], q, lines, k - 1) && IsFirstLineWith(lines, words[1..][k - 1], i)
  {
    ChosenAmongRest(words, q, lines);
  }

  /** The keyword search keeps its promise for every keyword list. */
  lemma {:induction false} KeywordLineSpec(words: seq<string>, q: string, lines: seq<string>)
    ensures KeywordLineCorrect(words, q, lines)
    decreases |words|
  {
    if words != [] {
      KeywordLineSpec(words[1..], q, lines);
      if KeywordHit(words[0], q, lines) {
        KeywordLineOnHit(words, q, lines);
      } else {
        KeywordLineOnMiss(words, q, lines);
      }
    }
  }

  /** A text gets no answer exactly when no keyword occurs both in the
      lower-cased question and in some lower-cased line; otherwise the answer
      quotes, stripped, the first line holding the first such keyword in the
      order revenue, profit, expense, income, cash. */
  lemma TextAnswerSpec(question: string, s: string)
    ensures var q, lines := Lower(question), Split(s, '\n');
      SimpleQA(question, Text(s)).None? <==>
        forall k :: 0 <= k < |Keywords| ==> !KeywordHit(Keywords[k], q, lines)
    ensures var q, lines := Lower(question), Split(s, '\n');
      SimpleQA(question, Text(s)).Some? ==>
        exists k, i :: IsChosenKeyword(Keywords, q, lines, k) && IsFirstLineWith(lines, Keywords[k], i)
    ensures var q, lines := Lower(question), Split(s, '\n');
      forall k, i :: IsChosenKeyword(Keywords, q, lines, k) && IsFirstLineWith(lines, Keywords[k], i) ==>
        SimpleQA(question, Text(s)) == Some("Here\U{2019}s what I found: *" + Strip(lines[i]) + "*")
  {
    var q, lines := Lower(question), Split(s, '\n');
    KeywordLineSpec(Keywords, q, lines);
    if SimpleQA(question, Text(s)).Some? {
      var i := KeywordLine(Keywords, q, lines).value;
      var k :| IsChosenKeyword(Keywords, q, lines, k) && IsFirstLineWith(lines, Keywords[k], i);
    }
  }

  /** The quoted text is a slice of the document that contains no line break. */
  lemma QuotedTextIsFromOneLine(s: string, i: nat)
    requires i < |Split(s, '\n')|
    ensures var quote := Strip(Split(s, '\n')[i]);
      '\n' !in quote && Occurs(quote, s)
  {
    var line := Split(s, '\n')[i];
    StripOccurs(line);
    SplitPieceOccurs(s, '\n', i);
    OccursWithout(Strip(line), line, '\n');
    OccursTransitive(Strip(line), line, s);
  }

  /** The answer depends on the question only through its lower-cased form. */
  lemma SimpleQAIgnoresCase(question: string, data: Data)
    ensures SimpleQA(Lower(question), data) == SimpleQA(question, data)
  {
    LowerIdempotent(question);
  }

  // ===========================================================================
  // The prompt given to the language model for tables

  /** A piece of a prompt template: literal text or one of the two fields. */
  datatype TemplatePart = Literal(text: string) | ContextField | QuestionField

  const Framing: string :=
    "\nYou are a financial assistant. Use the provided financial data to answer the user's question.\n\nFinancial Data:\n"
  const QuestionHeading: string := "\n\nQuestion:\n"
  const Instruction: string := "\n\nAnswer clearly and concisely:\n"

  /** The prompt template as `str.format` parses it: the framing and data
      heading, `{context}`, the question heading, `{question}`, the instruction. */
  const Template: seq<TemplatePart> :=
    [Literal(Framing), ContextField, Literal(QuestionHeading), QuestionField, Literal(Instruction)]

  /** Fills the fields of a parsed template; the values are inserted as they
      are, never scanned for fields themselves. */
  function Fill(parts: seq<TemplatePart>, context: string, question: string): string
    decreases |parts|
  {
    if parts == [] then []
    else
      var head := match parts[0]
        case Literal(t) => t
        case ContextField => context
        case QuestionField => question;
      head + Fill(parts[1..], context, question)
  }

  /** The prompt the table branch sends to the model. */
  function Prompt(context: string, question: string): string
  {
    Fill(Template, context, question)
  }

  /** The prompt frames the model as a financial assistant, then gives the
      context and then the question, each under its own heading, and ends
      with the instruction to answer clearly and concisely. */
  lemma PromptLayout(context: string, question: string)
    ensures Prompt(context, question) == Framing + context + QuestionHeading + question + Instruction
    ensures OccursAt(context, Prompt(context, question), |Framing|)
    ensures OccursAt(question, Prompt(context, question), |Framing| + |context| + |QuestionHeading|)
  {
    FillFramed(Framing, QuestionHeading, Instruction, context, question);
    OccursInMiddle(Framing, context, QuestionHeading + question + Instruction);
    OccursInMiddle(Framing + context + QuestionHeading, question, Instruction);
  }

  /** Filling a template of the prompt's shape puts each value between its
      literal neighbours. */
  lemma FillFramed(a: string, b: string, c: string, context: string, question: string)
    ensures Fill([Literal(a), ContextField, Literal(b), QuestionField, Literal(c)], context, question)
      == a + context + b + question + c
  {
    var t := [Literal(a), ContextField, Literal(b), QuestionField, Literal(c)];
    assert t[1..][1..][1..][1..][1..] == [];
    assert Fill(t[1..][1..][1..][1..], context, question) == c;
    assert Fill(t[1..][1..][1..], context, question) == question + c;
    assert Fill(t[1..][1..], context, question) == b + question + c;
    assert Fill(t[1..], context, question) == context + b + question + c;
  }

  // ===========================================================================
  // advanced_qa

  /** The external services `advanced_qa` calls, reduced to what they return. */
  datatype Backend = Backend(
    // Some(m) when splitting, embedding or storing the text, or setting up the
    // model and the retrieval chain over it, raises m (these calls are outside
    // the try block)
    indexText: string -> Option<string>,
    // the retrieval chain over the text's index, run on the question
    retrievalQA: (string, string) -> Result<string, string>,
    // the rendering of a table preview as text, without the index column
    // (taken to succeed)
    render: seq<Column> -> string,
    // the language model run on a filled-in prompt
    complete: string -> Result<string, string>)

  /** Number of rows a table preview keeps. */
  const PreviewRows: nat := 20

  /** `data.head(20)`: every column, cut to its first rows. */
  function Preview(cols: seq<Column>): (p: seq<Column>)
    ensures |p| == |cols|
    ensures forall j :: 0 <= j < |cols| ==>
      && p[j].name == cols[j].name
      && p[j].cells <= cols[j].cells
      && |p[j].cells| == (if |cols[j].cells| < PreviewRows then |cols[j].cells| else PreviewRows)
  {
    seq(|cols|, j requires 0 <= j < |cols| =>
      Column(cols[j].name, if |cols[j].cells| < PreviewRows then cols[j].cells else cols[j].cells[..PreviewRows]))
  }

  const RetrievalErrorPrefix: string := "\U{26A0}\U{FE0F} Retrieval error: "
  const ModelErrorPrefix: string := "\U{26A0}\U{FE0F} LLM error: "
  const Unsupported: string := "Sorry, I couldn\U{2019}t process this type of data."

  /** The answer to a question, or the message of an exception that escapes. */
  function AdvancedQA(question: string, data: Data, b: Backend): (r: Result<string, string>)
    ensures data.Other? ==> r == Success(Unsupported)
    ensures r.Failure? ==> data.Text? && b.indexText(data.text) == Some(r.error)
    ensures data.Text? && b.indexText(data.text).Some? ==> r == Failure(b.indexText(data.text).value)
  {
    match data
    case Text(s) =>
      match b.indexText(s) {
        case Some(m) => Failure(m)
        case None =>
          match b.retrievalQA(s, question) {
            case Success(a) => Success(Strip(a))
            case Failure(m) => Success(RetrievalErrorPrefix + m)
          }
      }
    case Table(cols) =>
      var direct := SimpleQA(question, data);
      if direct.Some? && direct.value != "" then Success(direct.value)
      else
        match b.complete(Prompt(b.render(Preview(cols)), question)) {
          case Success(a) => Success(Strip(a))
          case Failure(m) => Success(ModelErrorPrefix + m)
        }
    case Other => Success(Unsupported)
  }

  /** For a table, a direct answer is returned unchanged and the services are
      not consulted: any two backends give the same result. */
  lemma DirectAnswerFirst(question: string, cols: seq<Column>, b1: Backend, b2: Backend)
    requires SimpleQA(question, Table(cols)).Some?
    ensures AdvancedQA(question, Table(cols), b1) == Success(SimpleQA(question, Table(cols)).value)
    ensures AdvancedQA(question, Table(cols), b1) == AdvancedQA(question, Table(cols), b2)
  {
  }

  /** For a table with no direct answer, the model sees the filled-in prompt
      whose context is the rendered preview of at most 20 rows; its answer is
      stripped, and its failure with message m becomes a warning that quotes m. */
  lemma ModelFallback(question: string, cols: seq<Column>, b: Backend)
    requires SimpleQA(question, Table(cols)).None?
    ensures var prompt := Framing + b.render(Preview(cols)) + QuestionHeading + question + Instruction;
      match b.complete(prompt)
      case Success(a) => AdvancedQA(question, Table(cols), b) == Success(Strip(a))
      case Failure(m) => AdvancedQA(question, Table(cols), b) == Success("\U{26A0}\U{FE0F} LLM error: " + m)
  {
    PromptLayout(b.render(Preview(cols)), question);
  }

  /** Text never goes through the direct resolver: the answer is the stripped
      output of the retrieval chain, or a warning quoting its failure, and the
      table services play no part. */
  lemma TextUsesRetrieval(question: string, s: string, b: Backend)
    requires b.indexText(s).None?
    ensures match b.retrievalQA(s, question)
      case Success(a) => AdvancedQA(question, Text(s), b) == Success(Strip(a))
      case Failure(m) => AdvancedQA(question, Text(s), b) == Success("\U{26A0}\U{FE0F} Retrieval error: " + m)
    ensures forall render: seq<Column> -> string, complete: string -> Result<string, string> ::
      AdvancedQA(question, Text(s), b.(render := render, complete := complete)) == AdvancedQA(question, Text(s), b)
  {
  }
}
