# Models of the gates' hand-written algorithms

The gates in `scripts/` decide whether reports, registries and source files of the audit may be
published. Behind their comparisons stand algorithms that were written by hand: a reader of GFM
tables, scanners for Lean and HTML, a reducer of links, an inventory of Python scopes with a debt
ratchet, a Git tree id, and Keccak-256. This project models those algorithms in Dafny and proves
what the gates rely on.

Loops of the source are methods with invariants, objects are classes, arrays updated in place are
arrays; each such method is proved equal to a function of its input (or of the old state), and the
lemmas are about that function. What such a function means is said a second time without its scans and
recursions: the modules named `…Format`, `…Patterns`, `…Written`, `…Turns`, `…Extents` and `…Standard` give
the characters, bytes or bits as the formats and patterns write them, and prove that both agree.

| cluster | modules |
|---|---|
| Git tree id | `Utf8`, `LexOrder`, `GitTree`, `GitTreeBinding`, `GitTreeFormat` |
| Python scopes and ratchet | `PythonAst`, `PythonScopes`, `PythonScopesPartition`, `PythonComplexity`, `PythonScopeKeys`, `PythonScopeSample`, `Ratchet`, `BaselineFile`, `BaselinePatterns`, `Decimal` |
| GFM tables and separators | `GfmCells`, `GfmLines`, `GfmTables`, `GfmTablesExact`, `GfmPatterns`, `GfmWritten`, `TableSeparators`, `TableLines` |
| HTML comments and links | `HtmlScan`, `HtmlConstructs`, `HtmlStrip`, `HtmlStripFacts`, `HtmlLines`, `HtmlCells`, `HtmlCellLimits`, `HtmlPatterns`, `HtmlTails`, `HtmlTurns` |
| Lean lexers and names | `LeanLexers`, `LeanLexing`, `LeanDocuments`, `LeanIdempotence`, `LeanPatterns`, `NamespaceReplay`, `NamespaceScope` |
| Visible text | `NonRendered`, `VisibleText`, `VisibleDocuments`, `VisibleExtents`, `LinkDefinitions`, `LinkPatterns`, `VisibleLimits` |
| Keccak-256 | `KeccakLanes`, `KeccakRounds`, `KeccakConstants`, `KeccakPermutation`, `KeccakSponge`, `KeccakStandard` |

`Wrappers`, `Sequences`, `Subsequences`, `Whitespace` and `Dotted` hold shared notions.
`dafny verify dfyconfig.toml` verifies everything.

How the pieces of the environment enter the models:

- SHA-1 is an arbitrary function from byte strings to 20 bytes. Nothing is assumed of it, so the
  tree id theorem ends in "same files, or these two byte strings collide".
- The verdicts of regular expressions on a line are a record of facts (`GfmLines.Facts`), with only
  the implications the patterns share. Matches of a pattern in a text are ordered, disjoint lists.
- `\w`, `str.isalpha`, `str.isalnum` and the ends of leaf blocks are parameters.
- Python trees are the trees `ast.parse` builds, with the fields the gate reads, and a number that
  tells plain nodes apart where they look the same.
- A 64-bit integer of the Keccak code is its 64 bits, so that shifts and masks are written out.
- Strings are sequences of code points. `Utf8` encodes them, and refuses lone surrogates.

Where the code differs from what is said or expected of it, each with a lemma:

- Strict tables are not a sublist of the interrupting ones (`GfmTables.StrictTableLost`);
  `GfmTablesExact.StrictTableKept` says on the lines exactly when a strict table survives, and
  `StrictTablesKept` that every one does where none begins right below a setext underline.
- `strip_comments_and_strings` is not idempotent (`LeanIdempotence.AdjacentLiterals`);
  `IdempotentExactly` gives the condition, and source without two apostrophes in a row meets it
  (`IdempotentWithoutPairs`).
- A comment opener inside an escaped identifier is code to two of the Lean scanners and a comment to
  `strip_lean_comments` (`LeanLexing.NameReadAsComment`).
- `_strip_html_comments` promises to keep every line; two branches do not
  (`HtmlStripFacts.LostByComment`, `LostByAttribute`). `LinesKeptExactly` says when lines are kept by
  what the run meets, and `LinesKeptByText` gives a condition on the text alone.
- "No link may span a cell separator" fails where a label holds the separator inside a code span, a
  comment or a tag (`HtmlCellLimits.PipeInCodeSpan`), or where a row ends in a carriage return
  (`HtmlCellLimits.ReturnInLabel`). `HtmlCells.CrossedExactly` says that it fails just there, and
  `HtmlCells.OneCellByText` gives a condition on the text.
- `visible_text` shows the text of a document that prints no link definition exactly when its links
  nest eight deep at most (`VisibleDocuments.VisibleExactly`). Nine deep is one too many
  (`VisibleLimits.NineDeep`), and a link whose line reads as a definition is removed with the line
  (`VisibleLimits.DefinitionTakesLink`). Documents without brackets and backslashes of their own
  print no definition (`VisibleLimits.BareHasNone`).
- A baseline written by `render_baseline` passes exactly when every key in debt can be written
  (`BaselineFile.WrittenBaselinePasses`); a blank in a key is enough to fail (`BlankInKey`).
- The two readers of Lean names agree on a theorem exactly when its own name does not begin with
  `_root_.` (`NamespaceScope.FullNamesAgree`): one takes such a name as absolute, the other puts the
  open namespaces before it (`NamespaceScope.RootName`).
- Dropping the module's namespace prefix can make two different theorem names one
  (`NamespaceReplay.RelativeClash`), and then a module that declares both is refused
  (`NamespaceReplay.PrefixClash`).

## Model

| member | source | states |
|---|---|---|
| GitTree.GitTree | scripts/generate_ux2.py:933-957 | the loop that appends, sorts and hashes computes the tree id, or the first refusal, of the directory |
| GitTree.SortCorrect | scripts/generate_ux2.py:948-957 | sorting the entries orders their keys and permutes them |
| GitTreeBinding.IdBindsFiles | scripts/generate_ux2.py:919-957 | equal ids mean equal paths, executable bits and contents, or two distinct byte strings hashed by the two computations share a digest; equal files give equal ids whatever the listing order and the empty directories |
| GitTreeBinding.FilesDetermineId | scripts/generate_ux2.py:933-957 | the id does not depend on listing order or on directories without files |
| GitTreeBinding.NoTreeIffNoFile | scripts/generate_ux2.py:933-957 | no tree exactly when no file lies below the directory |
| GitTreeBinding.SucceedsExactly | scripts/generate_ux2.py:923-957 | the computation succeeds exactly when there is no symbolic link and every hashed name encodes |
| GitTreeBinding.BodyInjective | scripts/generate_ux2.py:950-957 | the concatenated records of mode, name and digest decode in one way only |
| GitTreeBinding.EntryDecode | scripts/generate_ux2.py:950-957 | the first record of a body determines its mode, name and digest, and the rest |
| GitTreeBinding.RecordsInGitOrder | scripts/generate_ux2.py:948-957 | sorting Python strings puts the records in the byte order Git uses, directories as if they ended in a slash |
| GitTreeFormat.IdIsTree | scripts/generate_ux2.py:919-957 | the id of a directory is the digest of a tree object as Git reads it: the word, its decimal length, and in Git's order one record for each child with a file below, with the octal mode 40000, 100755 where the owner may execute, or 100644, the name in UTF-8, a NUL, and the digest of that child's own object |
| GitTreeFormat.HashedReads | scripts/generate_ux2.py:919-957 | every byte string the computation hashes is such a tree of a directory or the blob of a file below |
| Utf8.EncodeForm | scripts/generate_ux2.py:950-952 | an encoding reads back as the string by the bit patterns of the Unicode standard, no sequence longer than needed |
| Utf8.EncodeOrder | scripts/generate_ux2.py:948-957 | comparing strings by code point and their encodings byte by byte agree |
| PythonScopes.OwnNodes | scripts/check_python_quality.py:178-207 | the worklist yields the nodes a scope owns, setup fields in place of nested bodies |
| PythonScopes.Scopes | scripts/check_python_quality.py:278-369 | the inventory lists the module and every definition below it with its qualified key |
| PythonScopes.ScopeInventory.Record | scripts/check_python_quality.py:292-305 | a scope is appended with the next ordinal of its qualified name |
| PythonScopes.ScopeInventory.Visit | scripts/check_python_quality.py:312-362 | visiting statements leaves the inventory the specification gives, in source order |
| PythonScopesPartition.VisitAllRecords | scripts/check_python_quality.py:312-362 | the scopes recorded below a list of nodes, in order, whatever the inventory held |
| PythonScopesPartition.ScopesPartitionTree | scripts/check_python_quality.py:161-207 | for every measure of nodes, what all scopes own plus the annotations never evaluated is the whole tree |
| PythonScopesPartition.EveryNodeOwnedOnce | scripts/check_python_quality.py:178-207 | every node is owned as often as it occurs outside such annotations: no nested body twice, no local annotation at all |
| PythonScopesPartition.NodeOwnedByOneScope | scripts/check_python_quality.py:178-207 | a node that stands at one place of the tree is owned by exactly one listed scope, once, or, where that place is in an annotation never evaluated, by none |
| PythonScopesPartition.Complexity | scripts/check_python_quality.py:228-249 | the loop counts one plus the decisions of the owned nodes |
| PythonScopesPartition.ComplexityConserved | scripts/check_python_quality.py:228-249 | the complexities less one of all scopes add up to the decisions of the module outside annotations never evaluated |
| PythonComplexity.NothingDecided | scripts/check_python_quality.py:228-249 | a scope that owns no branch, boolean operator, comparison, comprehension or match has complexity one |
| PythonComplexity.BranchAddsOne | scripts/check_python_quality.py:231-233 | one more branch around nodes of a body adds one |
| PythonComplexity.OthersAddNothing | scripts/check_python_quality.py:228-249 | a node of no deciding kind around nodes of a body adds nothing |
| PythonComplexity.BoolOpNests | scripts/check_python_quality.py:234-235 | `a and b` counts like a branch on `a`, a longer operator like its nested two-valued form |
| PythonComplexity.ChainIsConjunction | scripts/check_python_quality.py:236-238 | `a < b` counts nothing, `a < b < c` like `a < b and b < c` |
| PythonComplexity.ComprehensionIsLoop | scripts/check_python_quality.py:239-240 | a comprehension counts like its loop with a branch for each condition |
| PythonComplexity.CaseCounts | scripts/check_python_quality.py:241-248 | one more case of a match adds one if some value falls through its pattern, one for a guard, one for each bar of its or-patterns |
| PythonComplexity.IrrefutableExactly | scripts/check_python_quality.py:219-225 | a pattern counts as irrefutable exactly when it accepts whatever its other patterns say |
| PythonScopeSample.SampleKeys | scripts/check_python_quality.py:278-369 | the keys of a small module: dotted paths, an ordinal for a repeated name, the name or line of a lambda |
| PythonScopeKeys.ScopeKeysDistinct | scripts/check_python_quality.py:292-305 | no two scopes of a module share a key, so no measurement overwrites another |
| PythonScopeKeys.KeyInjective | scripts/check_python_quality.py:292-305 | a key determines the qualified name and its ordinal |
| Ratchet.SortedKeys | scripts/check_python_quality.py:442-460 | the keys of a table, each once, by code point |
| Ratchet.EnumerationUnique | scripts/check_python_quality.py:442-460 | there is one such list |
| Ratchet.Violations | scripts/check_python_quality.py:442-461 | the two loops report, in key order, the problems of measured keys and then of baseline rows |
| Ratchet.ReportUnique | scripts/check_python_quality.py:442-461 | the report is determined by the two tables |
| Ratchet.ReportedExactly | scripts/check_python_quality.py:442-461 | a problem is reported if and only if its key deserves it for just the reason, value and limit it names |
| Ratchet.PassesExactly | scripts/check_python_quality.py:442-461 | nothing is reported if and only if the baseline equals the map of measured entries at or above their threshold |
| Ratchet.PassesAtLimits | scripts/check_python_quality.py:406-461 | nothing is reported if and only if the baseline is the map of what measures 22 or more for a key with a colon, 500 or more for another |
| BaselineFile.RenderBaseline | scripts/check_python_quality.py:432-439 | the printed file: comments, a blank line, a row for each key in debt in order |
| BaselineFile.LoadBaseline | scripts/check_python_quality.py:410-429 | the loop reads the rows, or stops at the number of the first line that is not one |
| BaselineFile.LoadedLines | scripts/check_python_quality.py:410-429 | a file joined from lines without line breaks is read line by line |
| BaselinePatterns.LineExactly | scripts/check_python_quality.py:420-428 | a line is a row exactly when it is white space, a key, white space, digits, white space, and ignored exactly when it is blank or its first character is a hash sign |
| BaselinePatterns.RowsExactly | scripts/check_python_quality.py:420-429 | the table holds the last row of each key, and the reading stops at the first line that is neither row nor ignored |
| BaselinePatterns.RenderedExactly | scripts/check_python_quality.py:432-439 | the file is the comment lines, an empty line, and for each key in debt, by code point, the key, a space and its value, each with a line feed |
| BaselineFile.RowReadBack | scripts/check_python_quality.py:410-439 | a printed row reads back as its key and value |
| BaselineFile.RoundTripExactly | scripts/check_python_quality.py:410-439 | loading what was rendered gives the debt if and only if every key in debt is nonempty, free of white space and not led by a hash sign |
| BaselineFile.WrittenBaselinePasses | scripts/check_python_quality.py:410-461 | a baseline written from a tree passes on that tree under just that condition |
| BaselineFile.BlankInKey | scripts/check_python_quality.py:410-461 | a key with a blank in it makes the written baseline fail |
| Decimal.ParsePrint | scripts/check_python_quality.py:428-438 | printed numbers read back |
| GfmCells.SplitRow | scripts/gfm_table.py:157-189 | cutting at one pipe after another yields the cells of the line |
| GfmCells.PipesFromSpec | scripts/gfm_table.py:145-154 | the pipes found are the ascending offsets of those without a backslash right before them |
| GfmCells.JoinSplit | scripts/gfm_table.py:157-189 | joining the cells of a line gives back its trimmed body without its optional outer pipes |
| GfmCells.SplitPrintedRow | scripts/gfm_table.py:157-189 | cells printed between pipes are read back, when their pipes follow backslashes and none ends in one |
| GfmPatterns.DelimiterCellExactly | scripts/gfm_table.py:21-21 | a delimiter cell is blanks, perhaps a colon, dashes, perhaps a colon, blanks |
| GfmPatterns.StripExactly | scripts/gfm_table.py:157-189 | trimming takes the blanks off both ends and nothing else |
| GfmPatterns.IndentExactly | scripts/gfm_table.py:132-142 | only leading blanks count, a space as one column, a tab up to the next multiple of four |
| GfmWritten.CelllessExactly | scripts/gfm_table.py:170-180 | a line has no cells exactly when it is indented four columns, blank, or a lone pipe |
| GfmWritten.CellsExactly | scripts/gfm_table.py:157-189 | the cells are the trimmed line where it has no pipe; else they join to it without its outer pipes and hold none |
| GfmWritten.RowsExactly | scripts/gfm_table.py:197-221 | the body rows of every table found have cells and start no block and no HTML, and the line below the table does not continue it |
| GfmWritten.CandidateExactly | scripts/gfm_table.py:416-487 | where a table may begin, said of the characters and patterns of the lines alone |
| GfmWritten.MisfitExactly | scripts/gfm_table.py:416-487 | what spoils a paragraph: a delimiter row of another width |
| GfmWritten.FenceRegion | scripts/gfm_table.py:304-355 | a fence is literal down to the first fence of its mark that is as long |
| GfmWritten.HtmlRegion | scripts/gfm_table.py:304-355 | an HTML start of conditions 1 to 6 is literal down to its end |
| GfmWritten.HtmlLine | scripts/gfm_table.py:304-355 | or on its own line alone |
| GfmWritten.TagRegion | scripts/gfm_table.py:304-355 | a lone tag is literal down to a blank line, where no paragraph is open or a table is |
| GfmWritten.NoRegion | scripts/gfm_table.py:304-355 | no other line outside a region is literal |
| GfmWritten.ParagraphExactly | scripts/gfm_table.py:287-291 | a paragraph is open exactly when one began on a line that is not indented code and every line since may go on with it |
| GfmWritten.TableExactly | scripts/gfm_table.py:257-261 | the table state holds exactly when a table opened above and no line since was literal or ends one |
| GfmWritten.OpensTablePlainly | scripts/gfm_table.py:231-256 | without a list marker, a table opens where header and delimiter have as many cells |
| GfmWritten.OpensTableListed | scripts/gfm_table.py:231-256 | behind a list marker, where the delimiter stands as far in |
| GfmWritten.UnderItemExactly | scripts/gfm_table.py:244-251 | a line is taken for the content of a list item exactly when one stands above with nothing visible at the margin since |
| GfmWritten.OpensTableIndented | scripts/gfm_table.py:231-256 | then an indented header or delimiter is read without its indent |
| GfmLines.OnlySetextDiffers | scripts/gfm_table.py:197-284 | a line closes a paragraph without ending a table only as a setext underline |
| GfmLines.LiteralLines | scripts/gfm_table.py:304-355 | the pass over fences, HTML regions, paragraphs and tables marks the literal lines |
| GfmLines.FirstLiteralEndsTable | scripts/gfm_table.py:304-355 | the first literal line after one that is not ends a table |
| GfmLines.RegionExtent | scripts/gfm_table.py:304-355 | a region is literal from the line that opens it to the line that closes it, and no further |
| GfmTables.FindTables | scripts/gfm_table.py:416-499 | the scan returns the tables of the document, in order and apart |
| GfmTables.Attempt | scripts/gfm_table.py:416-499 | one turn: the tests in the order of the source, and the extent of an accepted table |
| GfmTables.ParagraphStarts | scripts/gfm_table.py:416-499 | where a paragraph may begin |
| GfmTables.MayBeContained | scripts/gfm_table.py:416-499 | whether a table would stand in a list item or block quote |
| GfmTables.ExtendBody | scripts/gfm_table.py:488-498 | the body runs to the first line that ends the table or has no cells |
| GfmTables.ScanOrdered | scripts/gfm_table.py:416-499 | tables do not overlap and lie within the document |
| GfmTables.SpanFacts | scripts/gfm_table.py:416-499 | header and delimiter of a table are not literal, and it ends where its body ends |
| GfmTables.AcceptedStart | scripts/gfm_table.py:416-499 | what holds at the header of every table found |
| GfmTables.NoLiteralRow | scripts/gfm_table.py:304-499 | no row of any table lies on a literal line, though the body loop never asks |
| GfmTables.StrictWithinInterrupting | scripts/gfm_table.py:370-499 | every strict table is an interrupting-mode table or a tail of one with the same end |
| GfmTables.InterruptingCoversMore | scripts/gfm_table.py:370-499 | a line covered in strict mode is covered in interrupting mode |
| GfmTables.LostInsideTable | scripts/gfm_table.py:370-499 | a strict table that is lost starts inside an interrupting one of the same end, three lines below its header or more, under a setext underline |
| GfmTablesExact.TablesExactly | scripts/gfm_table.py:416-499 | without the scan, in both modes: a span is found if and only if header, delimiter and paragraph call for a table there, no misfit above spoils it, and it is not inside another |
| GfmTablesExact.StrictTableKept | scripts/gfm_table.py:370-499 | a strict table is lost to the interrupting mode if and only if three lines or more above it an interrupting table begins and every line from there on is a body row; never where no setext underline stands above it |
| GfmTablesExact.StrictTablesKept | scripts/gfm_table.py:370-499 | where no strict header stands right below a setext underline, every strict table is an interrupting one |
| GfmTables.StrictTableLost | scripts/gfm_table.py:264-284 | six lines on which a strict table is not among the interrupting ones |
| TableSeparators.Lines | scripts/gfm_table.py:294-301 | the physical lines with their offsets and terminators |
| TableSeparators.LinesPartition | scripts/gfm_table.py:294-301 | lines partition the text and agree with its characters |
| TableLines.LinesExactly | scripts/gfm_table.py:294-301 | each line runs to the next of Python's line ends, carriage return and line feed not parted, and its text is without them |
| TableLines.SeparatorsWritten | scripts/check_verity_provenance.py:145-151 | the index holds the pipes of the tables' lines with no backslash right before them, and the ends of those lines |
| TableSeparators.RowsOfTable | scripts/gfm_table.py:488-498 | header, delimiter and rows of a table are the lines from its header to its end, in order |
| TableSeparators.Separators | scripts/check_verity_provenance.py:145-151 | the nested loops collect the separators of all tables |
| TableSeparators.SeparatorsExact | scripts/check_verity_provenance.py:112-151 | the index ascends strictly and holds an offset if and only if it is an unescaped pipe or a line end inside a found table |
| TableSeparators.RowSeparatorsExact | scripts/check_verity_provenance.py:145-151 | the separators of one row are its unescaped pipes and its line end |
| TableSeparators.Index | scripts/check_verity_provenance.py:112-151 | the separators of a text, from its lines and tables |
| TableSeparators.SeparatorIn | scripts/check_verity_provenance.py:154-157 | the binary search agrees with a scan of the half-open range |
| TableSeparators.CrossesSeparator | scripts/check_verity_provenance.py:112-157 | the query on a text: is a separator of one of its tables in the range |
| HtmlScan.Escaped | scripts/check_verity_provenance.py:47-54 | the loop finds whether an odd run of backslashes stands before |
| HtmlScan.EscapesAlternate | scripts/check_verity_provenance.py:47-54 | a backslash that is not escaped escapes what follows it, and nothing else does |
| HtmlScan.ScanCodeSpan | scripts/check_verity_provenance.py:262-288 | a code span to the next run of the same length, or the run alone |
| HtmlScan.ScanTag | scripts/check_verity_provenance.py:311-355 | a tag with its quoted values, or none when it is broken off |
| HtmlScan.CopyTitle | scripts/check_verity_provenance.py:435-485 | the title loop: newlines kept, escapes skipped, none at a blank line, a nested parenthesis or the end of the text |
| HtmlScan.ScanLinkTail | scripts/check_verity_provenance.py:395-505 | a link's destination, title and closing parenthesis, or none |
| HtmlConstructs.CloserExact | scripts/check_verity_provenance.py:262-288 | a code span closes at the first run of exactly its own length, and none means there is no such run |
| HtmlConstructs.CommentEndFirst | scripts/check_verity_provenance.py:300-310 | a comment ends at the first end mark after it |
| HtmlConstructs.TitleFormsExactly | scripts/check_verity_provenance.py:427-485 | a title ends at an offset if and only if that is the first unescaped closing mark, with no blank line and no unescaped parenthesis of a parenthesized title before it; what is printed is the line ends and the mark |
| HtmlStrip.Turn | scripts/check_verity_provenance.py:249-508 | one turn of the loop: text read, text printed, label stack |
| HtmlStrip.StripHtmlComments | scripts/check_verity_provenance.py:241-509 | the loop computes the run of the machine |
| HtmlStrip.StripText | scripts/check_verity_provenance.py:160-509 | the same from the text alone, with the separators of its own tables |
| HtmlPatterns.TagExactly | scripts/check_verity_provenance.py:311-355 | a tag ends at the first angle bracket outside quoted values; it prints all but the values over several lines; none for an opening bracket or an open quote |
| HtmlTails.TailExactly | scripts/check_verity_provenance.py:395-505 | the tail found is the one written: blanks, a destination up to its `>` or to a space or parenthesis at balance zero, blanks, a title, blanks, a parenthesis |
| HtmlTurns.StepTurned | scripts/check_verity_provenance.py:249-508 | every turn of the loop reads and prints what the text alone determines |
| HtmlTurns.PrintedExactly | scripts/check_verity_provenance.py:241-509 | the output is that of a chain of such turns from the first offset to the last |
| HtmlTurns.CommentStripped | scripts/check_verity_provenance.py:300-308 | a comment the run comes to prints its line ends and nothing else |
| HtmlTurns.SpanShown | scripts/check_verity_provenance.py:262-288 | a code span the run comes to prints whole on one line, and its line ends over several |
| HtmlStripFacts.OutputIsSubsequence | scripts/check_verity_provenance.py:241-509 | the output is the text with characters deleted |
| HtmlStripFacts.LinesKeptExactly | scripts/check_verity_provenance.py:234-239 | the newline count is kept if and only if the run meets no unterminated comment with a line end after it and no quoted attribute value that holds one; it never grows |
| HtmlStripFacts.LinesKeptByText | scripts/check_verity_provenance.py:234-239 | the newline count is kept where no unescaped comment opener of the text is unterminated before a line end and no tag opener starts a tag with such a value, wherever they stand |
| Subsequences.SubsequenceExactly | scripts/check_verity_provenance.py:241-509 | deleting characters is keeping the others, in their order |
| HtmlLines.LinesStayApart | scripts/check_verity_provenance.py:234-239 | each line of the output is its own line of the text with characters deleted, as many lines as before, if and only if the run meets neither of the two |
| HtmlLines.LinesApartByText | scripts/check_verity_provenance.py:234-239 | in particular where the text holds neither, wherever it stands |
| HtmlStripFacts.LostByComment | scripts/check_verity_provenance.py:300-310 | an unterminated comment loses a line |
| HtmlStripFacts.LostByAttribute | scripts/check_verity_provenance.py:323-333 | a quoted value over two lines loses a line |
| HtmlStripFacts.UnmarkedUnchanged | scripts/check_verity_provenance.py:241-509 | text without backticks, angle brackets and opening brackets is printed as it is |
| HtmlStripFacts.StepSound | scripts/check_verity_provenance.py:356-388 | pushes, pops, clears and deactivation keep the stack's invariant |
| HtmlStripFacts.NoLinkInLink | scripts/check_verity_provenance.py:494-505 | no formed link holds another in its label; formed constructs are apart or one is in the other's label |
| HtmlStripFacts.FormedLinksShaped | scripts/check_verity_provenance.py:375-505 | a formed link has unescaped brackets, its parentheses, and no separator from its closing bracket on |
| HtmlStripFacts.TailInOneCell | scripts/check_verity_provenance.py:486-505 | from its closing bracket on, no link of a text reaches over a separator of its tables; of the label it says nothing |
| HtmlCells.ReachedExactly | scripts/check_verity_provenance.py:249-508 | a pipe or line feed that separates lies between a formed link's brackets and parentheses if and only if its label has it strictly inside a code span, comment or tag that the run read as one piece |
| HtmlCells.CrossedExactly | scripts/check_verity_provenance.py:204-209 | a formed link reaches over a separator of the text's tables if and only if its label has it inside such a piece, or the separator is the carriage return that ends a row |
| HtmlCells.OneCellExactly | scripts/check_verity_provenance.py:204-209 | so a formed link lies in one cell if and only if its label has no such separator |
| HtmlCells.OneCellByText | scripts/check_verity_provenance.py:204-209 | where no code span, comment or tag of the text holds a separator and no row ends in a carriage return, every formed link lies in one cell |
| HtmlCellLimits.PipeInCodeSpan | scripts/check_verity_provenance.py:249-281 | a link forms over the pipe between two columns of its table, in a code span of its label |
| HtmlCellLimits.ReturnInLabel | scripts/check_verity_provenance.py:364-374 | a link forms from a table's header to its second row, over carriage returns |
| LeanLexers.StripCommentsAndStrings | scripts/check_proof_escapes.py:63-134 | the loop computes the specification of the first scanner |
| LeanLexers.StripBlockComments | scripts/check_report_theorem_inventory.py:351-434 | the loop computes the specification of the second scanner, or fails at an open comment |
| LeanLexers.StripLeanComments | scripts/check_public_claim_surfaces.py:304-350 | the loop computes the specification of the third scanner, or fails at an open comment or string |
| LeanPatterns.LiteralExactly | scripts/check_proof_escapes.py:60-60 | a character literal is an apostrophe, a backslash and a character or one other character, an apostrophe, with no word character around it |
| LeanPatterns.LiteralBlanked | scripts/check_proof_escapes.py:122-126 | in code, where no comment and no string begins, a literal is replaced by as many blanks |
| LeanPatterns.NameExactly | scripts/check_report_theorem_inventory.py:351-434 | an escaped identifier ends at the first closing guillemet of its line |
| LeanLexing.PublicExact | scripts/check_public_claim_surfaces.py:304-350 | the third scanner blanks the comment characters and fails where a comment or string is left open |
| LeanLexing.InventoryExact | scripts/check_report_theorem_inventory.py:351-434 | so does the second, failing at open comments only, where escaped identifiers end on their line and hold no delimiter |
| LeanLexing.EscapesExact | scripts/check_proof_escapes.py:63-134 | where no character literal matches in code, the first blanks comment and string characters, and closed escaped identifiers if masked |
| LeanLexing.ScannersAgree | scripts/check_proof_escapes.py:63-134 | where escaped identifiers end on their line and hold no delimiter: where the third scanner succeeds the second returns the same text; where moreover no character literal matches in code, the first returns that text with exactly the string literals blanked, and escaped identifiers if masked |
| LeanLexing.PrimesAreNoLiterals | scripts/check_proof_escapes.py:60 | no character literal matches where each apostrophe in code follows a word character or another apostrophe |
| LeanLexing.NameReadAsComment | scripts/check_public_claim_surfaces.py:304-350 | a comment opener inside an escaped identifier: two scanners copy it, the third fails |
| LeanLexing.EscapesKeepsLines | scripts/check_proof_escapes.py:63-134 | on any source, same length and newlines in the same places |
| LeanLexing.InventoryKeepsLines | scripts/check_report_theorem_inventory.py:351-434 | on any source it accepts, same length and newlines in the same places |
| LeanLexing.PublicKeepsLines | scripts/check_public_claim_surfaces.py:304-350 | on any source it accepts, same length and newlines in the same places |
| LeanDocuments.DocumentClasses | scripts/check_proof_escapes.py:60-134 | scanning a printed document recovers which part each character belongs to, comments nested to any depth |
| LeanDocuments.DocumentScanned | scripts/check_proof_escapes.py:60-134 | the second and third scanner blank exactly the comments of a printed document; where no character literal matches in its code, the first also the strings, and escaped identifiers if masked; the code comes back unchanged |
| LeanIdempotence.IdempotentExactly | scripts/check_proof_escapes.py:60-134 | a second run changes nothing if and only if no literal that the first run left directly follows one it blanked |
| LeanIdempotence.IdempotentWithoutApostrophes | scripts/check_proof_escapes.py:60-134 | in particular on source without apostrophes |
| LeanIdempotence.IdempotentWithoutPairs | scripts/check_proof_escapes.py:60-134 | a second run changes nothing on source without two apostrophes in a row |
| LeanIdempotence.AdjacentLiterals | scripts/check_proof_escapes.py:60-134 | of two character literals in a row the second survives the first run and not the second |
| NamespaceReplay.DeclaredTheorems | scripts/check_report_theorem_inventory.py:460-496 | the loop over events with its stack and dictionary computes the replay |
| NamespaceReplay.TreeReplayed | scripts/check_report_theorem_inventory.py:460-490 | below any stack, a well-nested tree leaves its own stack and records its theorems in order |
| NamespaceReplay.ModuleInventoried | scripts/check_report_theorem_inventory.py:455-496 | each theorem of a complete module gets its dotted path and its line, and the replay fails only on a repeated name |
| NamespaceReplay.SucceedsExactly | scripts/check_report_theorem_inventory.py:455-496 | for any events, the replay returns an inventory if and only if they are those of a well-nested module with different names, and it is that module's |
| NamespaceReplay.FailsExactly | scripts/check_report_theorem_inventory.py:466-495 | for any events, each failure with its line and names has exactly its cause: an unnamed namespace, an unmatched or mislabelled end, a repeated name, or scopes left open |
| NamespaceReplay.RelativeClash | scripts/check_report_theorem_inventory.py:487-492 | two names become one by dropping the prefix exactly when one is the other with the prefix in front |
| NamespaceReplay.PrefixClash | scripts/check_report_theorem_inventory.py:487-492 | a theorem inside the module's namespace and one of the same short name outside it are refused as one declared twice |
| NamespaceScope.Scope.Enter | scripts/generate_ux2.py:169-170 | a frame with the name or the empty string is pushed |
| NamespaceScope.Scope.Leave | scripts/generate_ux2.py:172-177 | the top frame is popped, and refused when absent or under another name |
| NamespaceScope.Scope.Prefix | scripts/generate_ux2.py:179-181 | the dotted names of the open namespaces |
| NamespaceScope.ReadersAgree | scripts/generate_ux2.py:163-181 | from the same scopes, the class and the replay refuse the same command or reach the same scopes, but for a namespace without a name |
| NamespaceScope.PrefixesAgree | scripts/generate_ux2.py:179-181 | with the same scopes both put the same prefix before a theorem's name |
| NamespaceScope.FullNamesAgree | scripts/generate_ux2.py:773-778 | with the same scopes, whichever are open, both give a theorem the same full name if and only if its own does not begin with `_root_.` |
| NamespaceScope.RootName | scripts/generate_ux2.py:773-778 | `_root_.x` in namespace A is `x` to one reader and `A._root_.x` to the other |
| NamespaceScope.ReadersInStep | scripts/generate_ux2.py:163-181 | over a whole file in which every namespace has a name, both keep the same prefix, they name each theorem alike if and only if its own name does not begin with `_root_.`, and the first scope command one refuses is the first the other refuses |
| NonRendered.ReachIsLast | scripts/markdown_text.py:151-164 | the last close tag of the name decides where the element stops running |
| NonRendered.NonRenderedSpans | scripts/markdown_text.py:144-181 | spans are ordered and disjoint, cover just what the open tags hide, and begin just where nothing is running |
| NonRendered.SpansUnique | scripts/markdown_text.py:117-181 | the tags leave one such list |
| NonRendered.BodyInOneSpan | scripts/markdown_text.py:117-143 | an open tag and every later close tag of its name lie in one span, so no part of a body survives |
| NonRendered.SpanShown | scripts/markdown_text.py:184-193 | between spans the text is kept as it is, and each span becomes one space |
| NonRendered.StripNonRendered | scripts/markdown_text.py:184-193 | the output is the complement, with one space where a hidden stretch begins |
| VisibleText.MatchingBracket | scripts/markdown_text.py:206-225 | the bracket loop finds where the label's scan ends |
| VisibleText.ClosingParenthesis | scripts/markdown_text.py:228-280 | the three loops find where the link ends, past a destination in angle brackets and titles |
| VisibleExtents.BracketExactly | scripts/markdown_text.py:206-225 | a label ends at the first bracket that closes, read character by character with escapes, before any blank line |
| VisibleExtents.BalanceExactly | scripts/markdown_text.py:252-280 | a destination ends at the first parenthesis that closes outside quotes, before any blank line |
| VisibleExtents.AngleExactly | scripts/markdown_text.py:242-251 | a destination in angle brackets ends at the first live `>` of its line |
| VisibleExtents.LinkExactly | scripts/markdown_text.py:283-318 | a link is found exactly where one is written, with its extent |
| VisibleExtents.BlankLineExactly | scripts/markdown_text.py:198-198 | a line end, blanks and a line end |
| VisibleExtents.LabelUnbroken | scripts/markdown_text.py:196-225 | no label goes over a blank line, unless a backslash escapes its line end |
| VisibleText.StripInlineLinks | scripts/markdown_text.py:283-318 | the pass computes the specification, inline and reference links |
| VisibleText.ReduceLinks | scripts/markdown_text.py:324-329 | the loop with its early exit makes eight passes |
| VisibleText.StripDeletes | scripts/markdown_text.py:283-318 | on any text a pass only deletes |
| VisibleText.StripShortens | scripts/markdown_text.py:200-203 | on any text a pass changes nothing where there is no link, and deletes four characters or more where there is one |
| VisibleText.ClosingEnds | scripts/markdown_text.py:228-280 | where the scan finds a link's end, a closing parenthesis stands right before it |
| VisibleText.PassesDelete | scripts/markdown_text.py:321-329 | the result is the text with characters deleted |
| VisibleText.PassesSettle | scripts/markdown_text.py:200-203 | more passes change nothing if and only if the result holds no link |
| VisibleDocuments.BalanceThrough | scripts/markdown_text.py:255-280 | the parenthesis scan passes over nested groups, escapes and quoted titles holding any parentheses |
| VisibleDocuments.DestinationFound | scripts/markdown_text.py:239-280 | the whole destination is passed over, in angle brackets or bare |
| VisibleDocuments.PassUnwraps | scripts/markdown_text.py:283-318 | a pass over a printed document unwraps exactly one level of links |
| VisibleDocuments.LeavesAfter | scripts/markdown_text.py:321-329 | after n passes just the text is left if and only if links nest n deep at most |
| VisibleDocuments.VisibleExactly | scripts/markdown_text.py:200-329 | for the whole of `visible_text`: just the text of a document that prints no link definition is left if and only if its links nest eight deep at most |
| LinkDefinitions.DefinitionExactly | scripts/markdown_text.py:37-43 | one pass over a line decides whether some way of reading the pattern, with its ambiguous backslash, matches there |
| LinkPatterns.WrittenExactly | scripts/markdown_text.py:37-43 | a definition is found exactly where the whole pattern can be read, part by part |
| LinkPatterns.RemovedByLine | scripts/markdown_text.py:321-323 | each line that is one goes with its line end, every other line stays |
| LinkPatterns.RemovedLast | scripts/markdown_text.py:321-323 | the same for a last line without a line end |
| LinkDefinitions.RemovalExactly | scripts/markdown_text.py:321-323 | removing the definitions leaves a text as it is if and only if no line of it is one |
| LinkDefinitions.ReduceText | scripts/markdown_text.py:321-329 | the definitions are removed, then the passes are made |
| LinkDefinitions.VisibleDeletes | scripts/markdown_text.py:321-329 | on any text, what is shown is the text with characters deleted |
| VisibleLimits.BareHasNone | scripts/markdown_text.py:37-43 | a document without brackets and backslashes of its own, links nested to any depth, prints no definition |
| VisibleLimits.NineDeep | scripts/markdown_text.py:200-329 | nine links, one in the other, do not come out as their text |
| VisibleLimits.DefinitionTakesLink | scripts/markdown_text.py:321-329 | a document of depth one whose line reads as a definition comes out empty |
| VisibleDocuments.NoBracketsBalance | scripts/markdown_text.py:206-225 | documents without brackets of their own have labels that balance, however deep |
| KeccakLanes.RolBit | scripts/check_deployed_code.py:102-103 | shifting, joining and masking move each bit of a lane round by the offset |
| KeccakLanes.BytesRoundTrip | scripts/check_deployed_code.py:134-137 | a lane's little-endian bytes give its bytes back |
| KeccakRounds.RotationTable | scripts/check_deployed_code.py:98 | the offsets are those of section 3.2.2 of FIPS 202 |
| KeccakConstants.RoundConstants | scripts/check_deployed_code.py:90-97 | the constants are those of the shift register of section 3.2.5 of FIPS 202 |
| KeccakRounds.ThetaInPlace | scripts/check_deployed_code.py:108-112 | the loops over the array carry out theta |
| KeccakRounds.ScatterOnce | scripts/check_deployed_code.py:113-116 | each of the 25 cells is written exactly once |
| KeccakRounds.Scatter | scripts/check_deployed_code.py:113-116 | the scatter loop carries out rho and pi |
| KeccakRounds.ChiInto | scripts/check_deployed_code.py:117-119 | the last loop carries out chi |
| KeccakRounds.KeccakF | scripts/check_deployed_code.py:106-120 | 24 rounds in place on the five by five array |
| KeccakPermutation.ThetaBits | scripts/check_deployed_code.py:108-112 | theta bit by bit, section 3.2.1 of FIPS 202 |
| KeccakPermutation.RhoBits | scripts/check_deployed_code.py:116 | rho bit by bit, section 3.2.2 |
| KeccakPermutation.PiBits | scripts/check_deployed_code.py:113-116 | pi bit by bit, section 3.2.3 |
| KeccakPermutation.ChiBits | scripts/check_deployed_code.py:117-119 | chi bit by bit, section 3.2.4 |
| KeccakPermutation.RhoInverts | scripts/check_deployed_code.py:113-116 | rho is undone both ways |
| KeccakPermutation.PiInverts | scripts/check_deployed_code.py:113-116 | pi is undone both ways |
| KeccakPermutation.ChiInverts | scripts/check_deployed_code.py:117-119 | chi is undone both ways |
| KeccakPermutation.IotaInverts | scripts/check_deployed_code.py:120 | adding the constant twice changes nothing |
| KeccakPermutation.ThetaInverts | scripts/check_deployed_code.py:108-112 | theta is undone both ways |
| KeccakPermutation.ColumnInjective | scripts/check_deployed_code.py:108-109 | theta's map on column parities loses nothing: doubled six times it has no rotation left, and three times that is the identity |
| KeccakPermutation.KeccakIsPermutation | scripts/check_deployed_code.py:106-120 | the 24 rounds are undone, and every state is reached |
| KeccakStandard.DigestIsStandard | scripts/check_deployed_code.py:90-137 | the bits of the digest are those of Keccak-256 on the bits of the message: padding 10*1 to 1088, 24 rounds of theta, rho, pi, chi and iota as chapter 3 of FIPS 202 writes them, blocks added to the first 1088 bits, the first 256 bits out |
| KeccakStandard.PaddingBits | scripts/check_deployed_code.py:126-130 | the padding is a one, as few zeros as fill the block, a one |
| KeccakStandard.KeccakString | scripts/check_deployed_code.py:106-120 | the permutation is 24 rounds on bits, the constants from the shift register |
| KeccakSponge.Pad | scripts/check_deployed_code.py:126-130 | the padding loop |
| KeccakSponge.PaddedLength | scripts/check_deployed_code.py:126-130 | the length becomes 136 times one more than the whole blocks of the message, and the message is kept in front |
| KeccakSponge.PaddingExact | scripts/check_deployed_code.py:126-130 | reading a padding back succeeds if and only if it is the padding of that message, also when both marks share a byte |
| KeccakSponge.PaddingInjective | scripts/check_deployed_code.py:126-130 | no two messages are padded alike, whatever their lengths |
| KeccakSponge.AbsorbBlock | scripts/check_deployed_code.py:131-135 | the lanes of a block are added in their order, then the state is permuted |
| KeccakSponge.Keccak256 | scripts/check_deployed_code.py:123-137 | the digest is the first 32 bytes of the state that absorbed the padded message |
| KeccakSponge.MeetInside | scripts/check_deployed_code.py:131-135 | padded messages of as many blocks that end in one state already agreed on the capacity before a block in which they differ |
| KeccakSponge.SameStateMeets | scripts/check_deployed_code.py:123-137 | the same for two different messages |
| KeccakSponge.ShortMessagesApart | scripts/check_deployed_code.py:123-137 | messages shorter than a block never leave the same state |

## Left out

- Subprocesses, network calls, file writing and printing around the checks.
- The `validate.py`, `build.py` and receipt scripts under `audit/`, and field-by-field validation of fixed metadata: comparisons with fixed data.
- Character-level matching of the regular expressions: block starts, tags, attributes and identifiers enter as facts or match lists. The pattern of link definitions is modelled.
- The later passes of `rendered_text`: the model ends with `visible_text`.
- `_crosses_block_boundary`: a parameter of the page; its patterns are those of a line's facts.
- The block-level passes of `_strip_non_rendered` in scripts/check_verity_provenance.py: line loops like `_literal_lines`.
- `statement_end`, `doc_comment` and `apply_scope`'s guess about a label that begins the next command in scripts/generate_ux2.py: layout heuristics.
- Lazy annotations of Python 3.14 and PEP 695 evaluators in `scopes`: the model is for eager and postponed annotations.
- `mutual`, which only scripts/generate_ux2.py reads as a scope.
- SHA-1 internals, and Git objects other than trees and blobs.
- `check_import_dag.py` and the bytecode offset searches: set comparisons and single loops.
- BaselineFile.LoadBaseline: a value is a run of ASCII digits, although `str.isdigit` also accepts digits that `int` may refuse; the pinned blob of the file is not compared.
- BaselineFile.RenderBaseline: the wording of the comment lines is a parameter; they begin with a hash sign and hold no line break.
- VisibleDocuments.VisibleExactly: texts have no unescaped opening bracket of their own, links no blank line inside, which CommonMark forbids there, and no printed line is a link definition, which the function removes first.
- KeccakRounds.KeccakF: lanes are sequences of 64 bits rather than machine integers.
