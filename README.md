# SQL statement splitting of the TTMS schema scripts

The TTMS repository applies its PostgreSQL schema with two scripts. Both cut
the schema text into statements and send them to the database one by one.

- `TTMS/scripts/apply_schema_verbose.py` uses `split_sql_statements`. It makes
  a single pass over the text and cuts at every `;` that is not inside a
  dollar-quoted string constant. Such a constant is a `$tag$ ... $tag$` region
  (section 4.1.2.4 of the PostgreSQL documentation, "Dollar-Quoted String
  Constants").
  - Each cut piece keeps its `;` and is stripped.
  - What is left after the last cut becomes a trailing statement if it is not
    blank.
  - A final list comprehension drops blank statements and takes one trailing
    `;` off each of the rest.
- `TTMS/scripts/apply_schema.py` uses a naive split:
  `[s.strip() for s in sql.split(';') if s.strip()]`. It submits each statement
  as `stmt + ';'`.

The project models both splitters and proves what they guarantee.

- `wrappers.dfy` (`Wrappers`): the `Option` type.
- `py_str.dfy` (`PyStr`): the Python string operations the scripts use.
  - `str.isspace` with Python's exact whitespace set.
  - `str.isalnum` restricted to ASCII.
  - `strip` and `split` on a one-character separator.
  - Each has a specification lemma.
- `dollar_quote.dfy` (`DollarQuote`): tag recognition at one position. This is
  the inner `while j` scan and the test that follows it.
- `verbose_splitter.dfy` (`VerboseSplitter`):
  - `Step`/`Run`/`Split` are the functional specification of
    `split_sql_statements`.
  - `SplitSqlStatements` is the Python `while` loop, written as a `while` loop
    over the text with the variables of `split_sql_statements`. It is proved to
    return `Split`.
  - `ScanAlnum` is the inner loop.
- `verbose_facts.dfy` (`VerboseSplitterFacts`): properties of the
  specification.
  - Reassembly of the input.
  - Behaviour inside and outside a region.
  - The number of statements.
  - Unclosed regions.
  - Post-processing.
  - Scripts without tags.
- `naive_splitter.dfy` (`NaiveSplitter`): the naive split and the submitted
  text, with their properties.
- `splitter_agreement.dfy` (`SplitterAgreement`): the two splitters agree on
  text in which no tag is recognised, once the verbose splitter's empty
  statements are removed.

The model follows the code as written, including these behaviours.

- `$$` is not a tag. The code requires at least one alphanumeric character
  between the two `$`. Anonymous `$$ ... $$` bodies are therefore cut at their
  inner `;`.
- `_` ends a tag name, so `$body_1$` is not a tag.
- Inside a region, a recognised tag other than the open one is not skipped.
  - Only its `$` is appended, and the scan moves on by one character.
  - Tags can therefore overlap: inside `$a$`, the text `$b$a$` closes the
    region.
- The blank filter runs before the final `;` is removed. A piece that is only
  `;` therefore survives as an empty statement, so `"; ;"` gives `["", ""]`.
- Re-splitting the statements rejoined with `;` does not always give them back.
  `"; ;"` gives two empty statements. Rejoined, they are `";"`, which gives
  only one. The model proves this for every script of whitespace and at least one `;`
  rather than stating an idempotence law.

A `;` is called *top-level* when the scan of the text before it leaves no
region open (`VerboseSplitterFacts.TopLevelSemicolon`).

## Model

| member | source | states |
|---|---|---|
| VerboseSplitter.SplitSqlStatements | TTMS/scripts/apply_schema_verbose.py:25-66 | The loop returns exactly `Split(sqlText)`. The invariants it keeps are: `in_dollar` holds iff a tag is open, the open tag is well-formed, and `stmts` holds the stripped pieces cut so far. |
| VerboseSplitter.DollarTagAt | TTMS/scripts/apply_schema_verbose.py:33-39 | The test made at position `i` returns exactly the recognised tag. A tag it returns is well-formed. |
| DollarQuote.TagAt | TTMS/scripts/apply_schema_verbose.py:33-39 | A recognised tag is at least three characters long and lies within the text. `TagAtIff` characterises exactly when a tag is recognised. |
| VerboseSplitter.ScanAlnum | TTMS/scripts/apply_schema_verbose.py:35-37 | The inner loop stops at the end of the run of alphanumeric characters that starts at `i+1`. |
| DollarQuote.AlnumRunEndSpec | TTMS/scripts/apply_schema_verbose.py:35-37 | That end is maximal. Every character before it is alphanumeric, and the character at it (if any) is not. |
| DollarQuote.TagAtIff | TTMS/scripts/apply_schema_verbose.py:33-39 | A tag `t` is recognised at `i` iff `t` occurs at `i` and `t` is `$`, one or more ASCII alphanumeric characters, `$`. |
| VerboseSplitter.TagRecognised | TTMS/scripts/apply_schema_verbose.py:35-39 | The tag the loop slices out after its inner scan is the recognised tag, and it is well-formed. |
| DollarQuote.EmptyTagIgnored | TTMS/scripts/apply_schema_verbose.py:38 | `$$` is never recognised as a tag. |
| DollarQuote.UnderscoreEndsTag | TTMS/scripts/apply_schema_verbose.py:36-38 | A `_` reached before the closing `$` prevents recognition, so `$a_b$` is not a tag. |
| DollarQuote.DollarAtEndIgnored | TTMS/scripts/apply_schema_verbose.py:36-38 | A `$` at the end of the text is not a tag. |
| VerboseSplitter.Step | TTMS/scripts/apply_schema_verbose.py:31-61 | Every iteration moves `i` forward by at least one and stays within the text, so the loop terminates. |
| VerboseSplitter.Run | TTMS/scripts/apply_schema_verbose.py:31-61 | The loop from position `i` in a given state. Its properties are stated by `RunWellFormed`, `RunReassembles` and `RunAbsorbs`, and `SplitSqlStatements` keeps it as its loop invariant. |
| VerboseSplitter.RawSplit | TTMS/scripts/apply_schema_verbose.py:25-61 | The state after the loop: the cut pieces, the buffer and the open tag. Its properties are stated by `RawSplitWellFormed`, `Reassembles`, `ChunkCount` and `NoTagRaw`. |
| VerboseSplitter.Trailing | TTMS/scripts/apply_schema_verbose.py:62-64 | The trailing buffer gives at most one statement, and it gives one exactly when the buffer is not all whitespace. |
| VerboseSplitter.Finish | TTMS/scripts/apply_schema_verbose.py:66 | Finishing never lengthens a statement, and it shortens every statement that ends with `;`. `FinishCut` states what it returns for a cut piece. |
| VerboseSplitter.PostProcess | TTMS/scripts/apply_schema_verbose.py:66 | The final comprehension never yields more statements than it is given. `PostProcessCuts` and `PostProcessTrailing` state which ones it keeps and what each becomes. |
| VerboseSplitter.Split | TTMS/scripts/apply_schema_verbose.py:25-66 | The statements `split_sql_statements` returns. `SplitSqlStatements` is proved to compute it. Its properties are stated by `SplitShape`, `SplitLength`, `NoTagSplit` and `BlankScript`. |
| VerboseSplitterFacts.StepInRegion | TTMS/scripts/apply_schema_verbose.py:47-61 | Inside a region a step never cuts. It leaves the region only on the identical tag. A different recognised tag appends only `$` and advances by one. |
| VerboseSplitterFacts.OverlappingTagCloses | TTMS/scripts/apply_schema_verbose.py:47-61 | Inside `$a$`, the text `$b$a$` closes the region, because the rejected `$b$` is re-scanned from its `b`. |
| VerboseSplitterFacts.StepOutsideRegion | TTMS/scripts/apply_schema_verbose.py:40-58 | Outside a region a step cuts exactly when the character is `;`, and it opens a region exactly when a tag is recognised. |
| VerboseSplitterFacts.StepWellFormed | TTMS/scripts/apply_schema_verbose.py:40-58 | A step keeps the state well-formed: the open tag is a tag and every cut piece ends with `;`. |
| VerboseSplitterFacts.RunWellFormed | TTMS/scripts/apply_schema_verbose.py:31-61 | The whole scan from a well-formed state stays well-formed. |
| VerboseSplitterFacts.RawSplitWellFormed | TTMS/scripts/apply_schema_verbose.py:25-61 | The scan of any script ends in a well-formed state. |
| VerboseSplitterFacts.StepReassembles | TTMS/scripts/apply_schema_verbose.py:31-61 | A step appends to the buffer exactly the text it moves over. |
| VerboseSplitterFacts.RunReassembles | TTMS/scripts/apply_schema_verbose.py:31-61 | The rest of the scan appends exactly the rest of the text. |
| VerboseSplitterFacts.Reassembles | TTMS/scripts/apply_schema_verbose.py:31-61 | The cut pieces followed by the final buffer, before stripping, concatenate to the input. Every character is taken once, in order. |
| VerboseSplitterFacts.RunAbsorbs | TTMS/scripts/apply_schema_verbose.py:55-61 | While the open tag does not occur again, nothing is cut and all the remaining text goes into the buffer. |
| VerboseSplitterFacts.UnclosedRegionAbsorbsRest | TTMS/scripts/apply_schema_verbose.py:55-64 | A region whose tag never occurs again absorbs the rest of the input into the trailing buffer, and no later cut happens. |
| VerboseSplitterFacts.RawSplitThroughBoundary | TTMS/scripts/apply_schema_verbose.py:31-61 | At a point where no tag can straddle, the scan of the whole text continues the scan of the prefix. |
| VerboseSplitterFacts.ChunksOfPrefix | TTMS/scripts/apply_schema_verbose.py:55-58 | Scanning any prefix cuts as many pieces as the prefix has top-level `;`. |
| VerboseSplitterFacts.ChunkCount | TTMS/scripts/apply_schema_verbose.py:55-58 | The scan cuts one piece per top-level `;`. |
| VerboseSplitterFacts.FinishCut | TTMS/scripts/apply_schema_verbose.py:66 | A stripped cut piece is never blank. Post-processing takes its one final `;` off and strips again. |
| VerboseSplitterFacts.PostProcessCuts | TTMS/scripts/apply_schema_verbose.py:66 | No `;`-terminated piece is dropped by the filter. Each becomes the piece without its `;`, stripped. |
| VerboseSplitterFacts.PostProcessTrailing | TTMS/scripts/apply_schema_verbose.py:62-66 | The trailing buffer yields a statement iff it is not blank. |
| VerboseSplitterFacts.SplitShape | TTMS/scripts/apply_schema_verbose.py:55-66 | Statement `k` is cut piece `k` without its `;`, stripped, in source order. The last statement comes from the trailing buffer when it is not blank. |
| VerboseSplitterFacts.SplitLength | TTMS/scripts/apply_schema_verbose.py:55-66 | The number of statements is the number of top-level `;`, plus one when the trailing buffer is not blank. |
| VerboseSplitterFacts.DollarFreeHasNoTag | TTMS/scripts/apply_schema_verbose.py:33-38 | Text without `$` has no tag. |
| VerboseSplitterFacts.AnonymousDollarsAreNoTags | TTMS/scripts/apply_schema_verbose.py:33-38 | Text in which no `$` is followed by an alphanumeric character has no tag. This includes `$$` bodies. |
| VerboseSplitterFacts.RunWithoutTags | TTMS/scripts/apply_schema_verbose.py:31-61 | Without tags the scan cuts at every `;`, exactly as `split(';')` does. |
| VerboseSplitterFacts.NoTagRaw | TTMS/scripts/apply_schema_verbose.py:25-61 | Without tags, the cut pieces are the pieces of `split(';')` but the last, each with its `;`. The final buffer is the last piece. |
| VerboseSplitterFacts.NoTagSplit | TTMS/scripts/apply_schema_verbose.py:25-66 | Without tags, the result is the stripped pieces of `split(';')` but the last, followed by the last piece stripped if it is not blank. |
| VerboseSplitterFacts.BlankScript | TTMS/scripts/apply_schema_verbose.py:66 | A script of only whitespace and `;` yields one empty statement per `;`, so `"; ;"` gives `["", ""]`. |
| VerboseSplitterFacts.RejoinedNotResplit | TTMS/scripts/apply_schema_verbose.py:66 | For a script of only whitespace and at least one `;`, rejoining the statements with `;` and splitting again gives one statement fewer. |
| PyStr.LStripSpec | TTMS/scripts/apply_schema.py:24 | Left strip removes exactly the maximal whitespace prefix. |
| PyStr.RStripSpec | TTMS/scripts/apply_schema.py:24 | Right strip removes exactly the maximal whitespace suffix. |
| PyStr.StripSpec | TTMS/scripts/apply_schema.py:24 | `strip()` gives the part of the text between whitespace-only ends. It has no whitespace at either end, and it is empty iff the text is all whitespace. |
| PyStr.StripEmptyIff | TTMS/scripts/apply_schema.py:24 | `strip()` gives the empty string iff the text is all whitespace. |
| PyStr.StripIdempotent | TTMS/scripts/apply_schema.py:24 | Stripping a stripped string changes nothing. |
| PyStr.SplitOnSpec | TTMS/scripts/apply_schema.py:24 | `split(';')` gives one more piece than there are `;`. No piece contains `;`, and joining the pieces with `;` gives the text back. |
| PyStr.BlankPieces | TTMS/scripts/apply_schema.py:24 | Every piece of `split(';')` is blank iff the text holds only `;` and whitespace. |
| NaiveSplitter.StrippedNonBlank | TTMS/scripts/apply_schema.py:24 | The comprehension never yields more statements than there are pieces. `KeptIndicesSpec` and `KeptIndicesExact` state which pieces it keeps. |
| NaiveSplitter.NaiveSplit | TTMS/scripts/apply_schema.py:24 | The statements the naive script submits. Their properties are stated by `NaiveSplitElements`, `NaiveSplitCount` and `NaiveSplitEmpty`. |
| NaiveSplitter.KeptIndicesSpec | TTMS/scripts/apply_schema.py:24 | Statement `k` is the stripped piece at the `k`-th kept position. Kept positions strictly increase, so source order is preserved. |
| NaiveSplitter.KeptIndicesExact | TTMS/scripts/apply_schema.py:24 | A piece is kept iff its strip is not empty. |
| NaiveSplitter.NaiveSplitElements | TTMS/scripts/apply_schema.py:24 | Every statement is non-empty, has no whitespace at either end, and contains no `;`. |
| NaiveSplitter.NaiveSplitCount | TTMS/scripts/apply_schema.py:24 | There are at most one more statements than `;` in the script. |
| NaiveSplitter.NaiveSplitEmpty | TTMS/scripts/apply_schema.py:24 | The result is empty iff the script holds only whitespace and `;`, including the empty script. |
| NaiveSplitter.Submitted | TTMS/scripts/apply_schema.py:31 | The submitted text is one character longer than the statement and ends with `;`. |
| NaiveSplitter.SubmittedStatement | TTMS/scripts/apply_schema.py:31 | A submitted statement holds exactly one `;`, as its last character. Without it, it is the statement again. |
| SplitterAgreement.FilterStripAll | TTMS/scripts/apply_schema.py:24 | Stripping every piece and then dropping empty strings is the naive comprehension. |
| SplitterAgreement.AgreeOnPieces | TTMS/scripts/apply_schema.py:24 | Applied to the same `split(';')` pieces, the verbose result without tags, with empty strings removed, is the naive comprehension. |
| SplitterAgreement.AgreeWithoutTags | TTMS/scripts/apply_schema_verbose.py:25-66 | Where no tag is recognised, the verbose result with empty statements removed equals the naive split. |
| SplitterAgreement.AgreeWithoutDollar | TTMS/scripts/apply_schema_verbose.py:25-66 | In particular this holds for every script without `$`. |
| SplitterAgreement.FinishUndoesSubmitted | TTMS/scripts/apply_schema.py:31 | The verbose post-processing applied to a submitted naive statement gives the statement back. |

## Left out

- Reading the environment, building the path to the schema file and reading it are not modelled. This covers `DATABASE_URL`, the `psycopg2` import guard, the existence check and the file read. The script text is a parameter.
- The database is not modelled: connect, execute, commit and close. The per-statement error handling is not modelled either. These are calls into the PostgreSQL driver.
- Progress printing, the 120-character preview and tracebacks are not modelled. Nothing is stated about them, but there is one consequence of the splitter:
  - The splitter can return an empty statement (`VerboseSplitterFacts.BlankScript`).
  - For such a statement, `stmt.strip().splitlines()[0]` at `apply_schema_verbose.py:76` raises outside the inner `try`.
  - The outer handler at line 88 then aborts the whole run.
- Process exit codes (`sys.exit`) are not modelled.
- PyStr.IsAlnum is ASCII only. Python's `str.isalnum` also accepts non-ASCII letters and digits, so a tag such as `$é$` is recognised by `split_sql_statements` but not by the model.
- The buffer `cur` is modelled as one string, not as a list of strings joined with `''.join`. The joined text is the same.
- The naive script's `for` loop over the statements is not modelled. It only submits them.
- No idempotence law is stated for the verbose splitter, because it does not hold: `VerboseSplitterFacts.RejoinedNotResplit` gives a counterexample.
