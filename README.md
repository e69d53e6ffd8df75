# Bug report summarizer — a Dafny model of its core

The bug report summarizer reads a CSV export of bug reports, groups the
reports by component, asks a local language model (served by Ollama) for a
per-component summary in a fixed Markdown layout, and writes an HTML page
that lists the summaries by customer impact. A desktop window lets the user
choose the CSV columns, the projects, the model and the chunk size.

This project models, in Dafny, the parts of that program that decide what
ends up on the page:

- `ollama_functions.dfy` (module `OllamaFunctions`): `parse_llm_markdown`,
  the line scanner that cuts a model reply into five sections and rates the
  impact HIGH, MEDIUM or LOW, as a method proved equal to a declarative
  definition (`Parse`: a section's text is the block under the last header
  that opens it). It also models the per-component loop of
  `generate_summary_table`, with the chat call and the Markdown-to-HTML
  conversion as function parameters.
- `preprocess.dfy` (module `Preprocess`): `load_and_preprocess`, which joins
  the component columns of each row into `All_Components` and drops them,
  and `split_by_component`, which collects the component names and builds
  one sub-table and one CSV path per component.
- `webpage.dfy` (module `Webpage`): `impact_color`, the impact order of the
  report, and the table row (full or fallback) each summary becomes,
  including its CSV link.
- `gui.dfy` (module `Gui`): the chunk-size choice, the project list (split,
  explode, `clean_components`, group, count, sort), the model list and its
  default, the model-name resolution, and the number of summary tasks. The
  window's state that these steps update is the class `BugReportGui`.
- Support modules: `Strings` (the Python string operations the core uses:
  `strip`, `lower`, `title`, `split`, `splitlines`, `replace`, `in`),
  `Sorting` (Python's stable `sorted`/`list.sort` with a key and `reverse`),
  `Tables` (a data frame as column names plus rows mapping column to cell),
  `Seqs` and `Wrappers`.

Behaviour of the code worth knowing:

- The text before the first header of a reply is not discarded. It stays in
  the buffer and becomes part of the first section opened
  (`OllamaFunctions.PreambleKept`).
- The impact rating defaults to MEDIUM (`OllamaFunctions.NoHeaderDefaults`).
- The rating words are matched case-sensitively, so a lower-case "high"
  rates MEDIUM (`OllamaFunctions.LowerCaseRatesMedium`).
- `ollama_functions.py` has no chunked, per-project summarizer. The
  window's processing step calls functions and arities that do not exist
  there, so it is not modelled beyond the chunk size, the model name and the
  task count it computes.
- gui.py cannot run as written: it imports a function preprocess.py lacks,
  and it uses `os` without importing it. The window class is modelled as if
  both were fixed (see "Notes on the code as written").

## Model

| member | source | states |
|---|---|---|
| OllamaFunctions.MarkersExclusive | ollama_functions.py:12-36 | no stripped, lower-cased line can start with two of the five header markers |
| OllamaFunctions.HeaderIffMarker | ollama_functions.py:11-36 | the chain of `startswith` tests opens section s exactly when the line starts with s's marker, whatever the order of the tests |
| OllamaFunctions.LastHeader | ollama_functions.py:10-38 | the index found is a header line and no header follows it; None means the lines hold no header |
| OllamaFunctions.LastHeaderOf | ollama_functions.py:12-36 | the index found is the last line opening section s; None means no line opens s |
| OllamaFunctions.NextHeader | ollama_functions.py:10-38 | the first header at or after a position, or the end; every line before it is text |
| OllamaFunctions.Block | ollama_functions.py:37-38 | the lines buffered after a header hold no header |
| OllamaFunctions.FirstContained | ollama_functions.py:43-46 | the word found is one of the words and occurs in the text; None means none of them occurs |
| OllamaFunctions.RatingPriority | ollama_functions.py:42-46 | the rating is HIGH, MEDIUM or LOW; HIGH exactly when the text contains HIGH; LOW only when it contains neither HIGH nor MEDIUM; MEDIUM otherwise, including when none occurs |
| OllamaFunctions.LowerCaseRatesMedium | ollama_functions.py:43-44 | the words are matched case-sensitively: an all-lower-case impact section rates MEDIUM |
| OllamaFunctions.ExtractRating | ollama_functions.py:42-46 | the rating loop with `break` returns the rating defined by the priority above |
| OllamaFunctions.ParseLlmMarkdown | ollama_functions.py:5-47 | the scanner returns exactly the five values of the declarative parse: each section's last block, stripped, and the rating of the impact section |
| OllamaFunctions.ScanSections | ollama_functions.py:7-40 | after the loop and the final flush, every section holds its declarative text |
| OllamaFunctions.ScanText | ollama_functions.py:37-38 | a text line is appended to the buffer and changes no section |
| OllamaFunctions.ScanHeader | ollama_functions.py:12-36 | at a header the open section receives the joined, stripped buffer, the buffer empties, and the header's section becomes current |
| OllamaFunctions.FlushCurrent | ollama_functions.py:13-15 | the section open before a header of another section ends up with the buffered lines, joined and stripped |
| OllamaFunctions.OpenAfterHeader | ollama_functions.py:13-16 | after a header the buffer is empty, unless it was the first header, in which case the preamble stays buffered |
| OllamaFunctions.SectionTextAppend | ollama_functions.py:10-38 | a line that neither opens s nor falls under s leaves s's text unchanged |
| OllamaFunctions.NoHeaderDefaults | ollama_functions.py:7-47 | a reply without header lines gives four empty texts and the rating MEDIUM |
| OllamaFunctions.PreambleKept | ollama_functions.py:9-16 | the text before the first header is prepended to the first section's block |
| OllamaFunctions.LastHeaderWins | ollama_functions.py:12-36 | when a section's header appears again, only the block under its last header is kept |
| OllamaFunctions.PromptHeadingsParse | ollama_functions.py:102-106 | each heading the component prompt asks for is read back by the parser as that section's header |
| OllamaFunctions.LowerHeading | ollama_functions.py:102-106 | each prompt heading lower-cases to its section's marker |
| OllamaFunctions.EchoedPlaceholderRatesHigh | ollama_functions.py:106 | a reply that copies the "HIGH/MEDIUM/LOW" placeholder is rated HIGH |
| OllamaFunctions.ComponentRecord | ollama_functions.py:118-131 | a summary entry carries its component name and a rating among HIGH, MEDIUM, LOW |
| OllamaFunctions.RecordOfParsed | ollama_functions.py:118-131 | the entry holds the HTML of the four parsed texts and the parsed rating |
| OllamaFunctions.SummariesStep | ollama_functions.py:90-92 | an empty component adds nothing; a non-empty one adds its own entry at the end |
| OllamaFunctions.SummariesCoverNonEmpty | ollama_functions.py:90-131 | one entry per non-empty component, in dictionary order, each named after its component and rated HIGH, MEDIUM or LOW |
| OllamaFunctions.SummarizeComponent | ollama_functions.py:93-131 | the loop body builds the entry from the reply to the component prompt |
| OllamaFunctions.GenerateSummaryTable | ollama_functions.py:50-132 | the overall text is the converted reply to the overall prompt; the summaries are the entries of the non-empty components |
| OllamaFunctions.HeaderOf | ollama_functions.py:11-36 | defines the section a line opens: the marker tests on the stripped, lower-cased line |
| OllamaFunctions.SectionText | ollama_functions.py:10-40 | defines a section's text: empty without a header for it, otherwise the block under its last header, joined with newlines and stripped |
| OllamaFunctions.Rating | ollama_functions.py:42-46 | defines the rating: the first of HIGH, MEDIUM, LOW the impact text contains, MEDIUM when none |
| OllamaFunctions.Parse | ollama_functions.py:5-47 | defines the parse of a reply: the four section texts and the rating of the impact section |
| OllamaFunctions.ComponentPrompt | ollama_functions.py:94-108 | defines the prompt for one component: the instructions, the five headings and the component's reports |
| OllamaFunctions.Summaries | ollama_functions.py:90-131 | defines the summary list: the entries of the non-empty components, in dictionary order |
| Preprocess.KeptCell | preprocess.py:7 | a cell contributes at most one text, non-empty and already stripped |
| Preprocess.KeptCellSpec | preprocess.py:7 | a cell contributes p exactly when it is non-null and its stripped text is the non-empty p |
| Preprocess.KeptSpec | preprocess.py:7 | a text is joined exactly when some component cell of the row contributes it |
| Preprocess.CellsOf | preprocess.py:6 | the component cells of a row, in the order of the component columns |
| Preprocess.Missing | preprocess.py:6 | the component columns the table lacks |
| Preprocess.DropKeys | preprocess.py:9 | dropping columns removes exactly those keys and keeps every other cell |
| Preprocess.LoadAndPreprocess | preprocess.py:4-11 | fails exactly when a component column is missing, naming those columns; otherwise keeps the row count and drops every component column |
| Preprocess.LoadedValid | preprocess.py:9-10 | the result is a well-formed table |
| Preprocess.LoadedRow | preprocess.py:6-10 | each row holds the join of its component cells under All_Components and keeps every other cell |
| Preprocess.LoadedReady | preprocess.py:6-10 | the result has an All_Components text in every row, ready to split |
| Preprocess.UniqueComponentsSpec | preprocess.py:18-22 | a name is collected exactly when it is non-empty and a stripped comma piece of some row's cell |
| Preprocess.GatherComponents | preprocess.py:18-21 | the first pass collects the stripped comma pieces of every non-empty cell |
| Preprocess.AddPieces | preprocess.py:20 | one cell adds exactly its stripped pieces to the set |
| Preprocess.RegexSplit | preprocess.py:27 | splitting on a comma and the whitespace after it gives one piece per comma piece |
| Preprocess.Matching | preprocess.py:27-29 | the selected rows lose All_Components and are no more than the rows |
| Preprocess.MatchingSpec | preprocess.py:27-29 | a row is in a component's sub-table exactly when the mask selects the row it comes from |
| Preprocess.SubTable | preprocess.py:27-29 | a sub-table has no All_Components column or cell |
| Preprocess.SafeFileName | preprocess.py:30 | every space and slash becomes an underscore; every other character is kept |
| Preprocess.SplitByComponent | preprocess.py:14-36 | one entry per collected component, each once, each with its own sub-table and its own CSV path |
| Preprocess.RegexSplitOfJoin | preprocess.py:6-27 | splitting a ", "-join of comma-free stripped texts gives them back |
| Preprocess.CellComponentsOfJoin | preprocess.py:6-22 | the first pass over a ", "-join collects exactly the joined texts |
| Preprocess.LoadedRowInItsSubTables | preprocess.py:6-28 | with comma-free component cells, each text a row joins is collected and the row is in that component's sub-table |
| Preprocess.SpaceBeforeCommaLeavesRowOut | preprocess.py:20-27 | a cell "A , B" makes A a component, yet the mask leaves the row out of A's sub-table |
| Preprocess.SafeFileNamesCollide | preprocess.py:30-33 | "a b" and "a/b" are written to the same file |
| Preprocess.JoinComponents | preprocess.py:6-8 | defines a row's All_Components text: the kept cells joined with ", " |
| Preprocess.UniqueComponents | preprocess.py:18-22 | defines the component set: the stripped comma pieces of every row's cell, without the empty name |
| Preprocess.CsvPath | preprocess.py:30-32 | defines a component's CSV path: the output directory joined with the safe file name and ".csv" |
| Webpage.ImpactColor | webpage.py:1-10 | the colour is red, orange, green or grey |
| Webpage.Rank | webpage.py:147-151 | the sort rank is at most 3 |
| Webpage.ColorFollowsRank | webpage.py:1-10 | red, orange, green and grey correspond exactly to ranks 3, 2, 1 and 0 |
| Webpage.LabelKeepsColorAndRank | webpage.py:180 | the title-cased badge text has the colour and rank of the impact |
| Webpage.RatedImpactColors | webpage.py:1-10 | the parser's HIGH, MEDIUM, LOW get ranks 3, 2, 1 and red, orange, green |
| Webpage.GeneratedSummaryIsRated | webpage.py:172 | a generated summary never has rank 0 or the grey badge |
| Webpage.SortedIsPermutation | webpage.py:149-153 | the sorted summaries are the given ones, each as often |
| Webpage.SortedByImpact | webpage.py:147-153 | ranks never increase down the list |
| Webpage.SortedIsStable | webpage.py:149-153 | summaries of equal rank keep their given order |
| Webpage.RowFor | webpage.py:155-182 | the fallback row exactly for a missing or blank summary, spanning 5 columns; otherwise the full row with the summary and a badge equal to the impact up to case; both link the component's CSV |
| Webpage.BuildHtmlReport | webpage.py:147-183 | one row per summary, in sorted order, under the overall summary |
| Webpage.LinkNamesWrittenFile | webpage.py:157 | with the directory the files were written to, every link names the file written |
| Webpage.DefaultLinkMissesDefaultFile | webpage.py:13 | the default link directory differs from the default output directory, so default links miss the written files |
| Webpage.SortedSummaries | webpage.py:147-153 | defines the report's order: a stable sort by impact rank, highest first |
| Webpage.CsvLink | webpage.py:157 | defines the link target: the directory, "/", the safe file name and ".csv" |
| Webpage.IsBlankSummary | webpage.py:160 | defines a blank summary: missing, or only whitespace |
| Gui.ParseInt | gui.py:369 | defines `int()` of a string: the stripped text read as an optional sign and digit groups of at most 4300 digits, None where Python raises ValueError |
| Gui.ResolveChunkSize | gui.py:363-373 | defines the chunk size: the report count plus one for "Process All at Once", otherwise `int()` of the choice, 5 where that fails, including past 4300 digits |
| Gui.NatToString | gui.py:369 | the decimal text of n is all digits and reads back as n |
| Gui.ParseIntToString | gui.py:369 | `int()` of an integer's decimal text gives the integer back when it has at most 4300 digits, and fails when it has more |
| Gui.AllDigitsCount | gui.py:369 | in a string of digits alone, every character counts toward the 4300-digit limit |
| Gui.Pow10 | gui.py:369 | 10^k is at least 1 |
| Gui.DigitsWithin | gui.py:369 | the decimal text of n has at most k digits exactly when n < 10^k, so the limit is -10^4300 < n < 10^4300 |
| Gui.ParseIntNeedsDigit | gui.py:369-372 | `int()` fails on text without a digit |
| Gui.AllAtOnceExceedsReports | gui.py:365-366 | "Process All at Once" gives a chunk larger than the report count |
| Gui.WrittenSizeIsUsed | gui.py:368-373 | a written integer of at most 4300 digits is the chunk size, zero and negative ones included, with no bound on the value; a longer one gives 5 |
| Gui.WordChoiceFallsBack | gui.py:371-372 | any other text without a digit falls back to 5 |
| Gui.StripAll | gui.py:209 | each project piece is stripped |
| Gui.ProjectPieces | gui.py:209 | one project name per comma piece |
| Gui.ProjectPiecesOfJoin | gui.py:209 | a comma-join of stripped comma-free names splits back into them |
| Gui.CleanComponent | gui.py:215-216 | a cleaned label is never empty |
| Gui.CleanAll | gui.py:216 | each piece is cleaned in place |
| Gui.CleanComponents | gui.py:212-216 | one non-empty label per comma piece, at least one |
| Gui.MissingComponentIsGeneral | gui.py:212 | a missing component cell gives the single label General |
| Gui.SingleLabel | gui.py:216 | a stripped comma-free label without the project prefix is kept as it is |
| Gui.CleanUntouched | gui.py:216 | a stripped piece without the prefix is unchanged |
| Gui.ProjectPrefixRemoved | gui.py:215-216 | "P_name" under project P becomes "name" |
| Gui.BarePrefixIsGeneral | gui.py:216 | a piece that is only the prefix becomes General |
| Gui.ExplodeProjects | gui.py:209-218 | one row per project of the record, each with that project's cleaned labels |
| Gui.ExplodedRowsHaveComponents | gui.py:212-218 | every exploded row has at least one label and no empty label |
| Gui.ExplodedProjects | gui.py:208-210 | a name appears among the exploded projects exactly when some record lists it |
| Gui.Unique | gui.py:224 | no repeats, the same members, no longer |
| Gui.Group | gui.py:221-222 | a project's group holds the exploded rows of that project and no others, and is no longer than the exploded table |
| Gui.GroupMultiplicity | gui.py:221-227 | a project's group holds each exploded row of that project as often as the exploded table does, and no other row; its length is the report count |
| Gui.Named | gui.py:223 | the group keys without the empty name |
| Gui.InfoList | gui.py:220-231 | one entry per name, in order |
| Gui.InfoOf | gui.py:224-231 | defines a project's entry: its name, its group's size, the number of distinct labels and the first three labels in sorted order |
| Gui.ProjectsData | gui.py:220-231 | defines the project list: one entry per non-empty group key of the exploded records, in key order |
| Gui.ProjectsListed | gui.py:208-231 | a name gets an entry exactly when it is non-empty and some record lists it |
| Gui.ProjectsInNameOrder | gui.py:221-222 | entries come in strictly ascending name order |
| Gui.ProjectCounts | gui.py:224-228 | the report count is the group's size and the component count the number of distinct labels, both at least 1 |
| Gui.UniqueKeepsSorted | gui.py:221 | removing repeats from sorted names keeps them sorted |
| Gui.NamedKeepsOrder | gui.py:223 | skipping the empty name keeps the keys sorted and distinct |
| Gui.SortProjects | gui.py:238-241 | defines the sort: stable by the chosen field, descending exactly when the order is "desc"; an unknown field leaves the list as it is |
| Gui.SortProjectsIsPermutation | gui.py:241 | sorting the project list keeps every entry |
| Gui.SortProjectsDirection | gui.py:239-241 | with a known key the list is descending when the order is "desc", ascending otherwise |
| Gui.SortProjectsIsStable | gui.py:241 | entries with equal keys keep their order |
| Gui.DisplayNames | gui.py:276-286 | defines the display names: one per named model, in list order |
| Gui.ModelMap | gui.py:276-285 | defines the model map: each named model's display name maps to its name, a later model overwriting an earlier one |
| Gui.DefaultChoice | gui.py:289-301 | defines the default selection: llama3.1:8b's display name if listed, otherwise the first sorted display name, otherwise the current selection |
| Gui.ResolveModel | gui.py:379 | defines the resolution: the map's entry for the selection, llama3:8b when it has none |
| Gui.DisplayNamesSpec | gui.py:276-286 | a display name is listed exactly when some named model shows it |
| Gui.ModelMapSpec | gui.py:285 | the map's keys are the display names and each maps to the name of a model showing it |
| Gui.PreferredDisplaySpec | gui.py:289-290 | a preferred display name exists exactly when llama3.1:8b is listed, and it is that model's display name |
| Gui.DefaultIsListed | gui.py:296-301 | once a named model is listed, the default selection is a key of the map |
| Gui.PreferredIsDefault | gui.py:289-298 | when llama3.1:8b is listed, the default selection resolves to it |
| Gui.NoNamedModelFallsBack | gui.py:379 | with no named model every selection resolves to llama3:8b |
| Gui.BugReportGui.constructor | gui.py:36-114 | no projects, sort by report count descending, and the model map, choices and selection that loading the server's model list into an empty selection gives; the selection is a key of the map once a named model is listed |
| Gui.BugReportGui.ActualModelName | gui.py:379 | a listed selection resolves to a listed model name, anything else to llama3:8b |
| Gui.BugReportGui.LoadOllamaModels | gui.py:258-301 | the map is rebuilt; with models, the choices are the sorted display names and the selection is the default; with none, both are unchanged |
| Gui.BugReportGui.SortAndRedisplayProjects | gui.py:238-241 | the list is sorted by the chosen key and order; an unknown key leaves it unchanged, and the call fails exactly when the key is unknown and the list is not empty |
| Gui.BugReportGui.SetSort | gui.py:133-149 | a sort radio button sets its variable and re-sorts the list by the new key and order, failing as sorting does |
| Gui.BugReportGui.LoadProjectsAndComponents | gui.py:199-234 | nothing changes without a file and both columns; otherwise the list is the project entries, sorted as chosen |
| Gui.TotalSummaryTasks | gui.py:338-342 | defines the number of summary tasks: the number of distinct projects plus the number of distinct (component, project) pairs |
| Gui.AtLeastTwoTasksPerProject | gui.py:338-342 | the number of summary tasks is at least twice the number of projects |
| Sorting.SortBy | webpage.py:149-153 | the result is a permutation of the input, sorted by the key in the given direction |
| Sorting.SortByStable | webpage.py:149-153 | elements with equal keys keep their relative order |
| Sorting.KeyLeTotalPreorder | gui.py:241 | key comparison is reflexive, total, antisymmetric and transitive |
| Strings.Strip | ollama_functions.py:11 | the result is the slice of the input that starts where `lstrip` stops, and it starts and ends with a non-space |
| Strings.StripRemovesSpace | ollama_functions.py:11 | what `strip` cuts off before and after that slice is whitespace |
| Strings.StripChars | preprocess.py:7 | stripping adds no character |
| Strings.LStrip | preprocess.py:27 | leading whitespace is removed and the rest kept |
| Strings.LStripRemovesSpace | preprocess.py:27 | what LStrip removes is whitespace |
| Strings.RStripRemovesSpace | ollama_functions.py:14 | what RStrip removes is whitespace |
| Strings.Title | webpage.py:180 | title-casing keeps the length; a letter is lower-cased right after a letter and upper-cased elsewhere, every other character is kept |
| Strings.LowerOfTitle | webpage.py:180 | title-casing does not change the lower-cased text |
| Strings.LowerIdempotent | webpage.py:2 | lower-casing twice is lower-casing once |
| Strings.Contains | ollama_functions.py:44 | `in` holds exactly when the word occurs at some index |
| Strings.Split | preprocess.py:20 | at least one piece, no piece holds the separator, and joining the pieces gives the text back |
| Strings.SplitJoin | gui.py:209 | splitting a join of separator-free pieces gives them back |
| Strings.SplitLines | ollama_functions.py:10 | no line holds a line break; the empty text has no lines |
| Strings.SplitLinesJoin | ollama_functions.py:10 | for text whose only line break is \n, the lines joined with newlines, plus a final newline if there was one, give the text back |
| Strings.Replace | gui.py:216 | a text without the pattern is unchanged; a shorter replacement does not lengthen the text |
| Strings.ReplaceFirst | gui.py:216 | where the pattern first occurs, the text before it is kept, the pattern becomes the replacement, and replacement goes on after the occurrence |
| Strings.ReplaceKeepsPrefix | gui.py:216 | a prefix that holds no occurrence of the pattern is kept as it is |
| Strings.ReplaceCharAt | preprocess.py:30 | replacing one character by another changes exactly its occurrences |
| Strings.LexLeTotal | gui.py:221 | any two names are ordered one way or the other |
| Strings.LexLeTransitive | gui.py:221 | the name order is transitive |
| Seqs.UnionOfSpec | preprocess.py:18-21 | an element is collected exactly when some item contributes it |
| Seqs.ConcatSpec | gui.py:210 | an exploded element comes from some item |
| Tables.Without | preprocess.py:9 | dropping columns keeps exactly the others |
| Tables.WithoutDistinct | preprocess.py:9 | dropping columns keeps column names distinct |

## Left out

- The CSV reading and writing, the directory creation and the exceptions `pd.read_csv` raises. A table is given as a value. The file a sub-table would be written to is returned as a path.
- `ollama.chat`, `ollama.list`, `markdown.markdown` and `DataFrame.to_string`. They are function parameters of the model. The `print` debugging output is left out.
- `_bytes_to_gb`: the size text of a model is a function parameter; the gigabyte formatting is floating point.
- The HTML, CSS and JavaScript text of the page: only the rows' contents and order are modelled.
- graphs.py and main.py are not part of this model. In gui.py, the tkinter widgets and the check boxes in `project_vars` are left out, as are the label text of each project line, the threading, the cancel event and the progress fractions.
- The chunked per-project summarizer that gui.py's processing step calls. `split_by_project_and_component` does not exist in the source. That step also calls `load_and_preprocess` and `build_html_report` with more arguments than they take, and uses `os` without importing it. Only its chunk size, its model-name resolution and its task count are modelled.
- Gui.AtLeastTwoTasksPerProject: the `All_Components_List` column it counts over is produced by nothing in the source. The rows are given as (project, labels) pairs.
- Gui.ResolveChunkSize: `int()` is modelled for ASCII digits, signs, underscores between digits and surrounding whitespace. Other Unicode digits are not modelled. The digit limit is fixed at CPython's default of 4300; changing it with `sys.set_int_max_str_digits` or `PYTHONINTMAXSTRDIGITS` is not modelled. The TypeError branch cannot be reached from a string and is not modelled.
- Gui.BugReportGui.constructor: gui.py never imports `os`, so `__init__` raises NameError at gui.py:43, before `load_ollama_models` runs at gui.py:114, and `select_csv` raises NameError at gui.py:171, before it loads the projects at gui.py:174. gui.py:8 also imports `split_by_project_and_component`, which preprocess.py does not define, so importing gui.py raises ImportError. The constructor and every other `Gui.BugReportGui` member model the method bodies as if that import and `os` were fixed; the model does not capture these failures.
- Strings.Lower and Strings.Title change ASCII letters only; Python's Unicode case mapping is not modelled.
- Pandas index labels are left out. Rows are kept in order, and the `reset_index` in preprocess.py:10 is the identity on that representation.
- A non-string cell is modelled as missing (`Null`) or as its `str()` text. No other cell type is modelled.
- Preprocess.SplitByComponent: the order of the dictionary follows the iteration order of a Python set, which is not specified. The model allows any order and proves its properties for every order.
- Preprocess.LoadedRowInItsSubTables: stated only for component cells without commas. Preprocess.SpaceBeforeCommaLeavesRowOut shows that a cell like "A , B" breaks it.
- Gui.PreferredIsDefault: requires that no two differently named models share a display name. Otherwise a later model can take over llama3.1:8b's key in the map.

## Notes on the code as written

- The two passes of `split_by_component` split a cell differently. The first strips the pieces of `split(',')`. The mask splits on a comma and the whitespace after it, but keeps whitespace before a comma. So a component can get a sub-table that misses rows naming it (`Preprocess.SpaceBeforeCommaLeavesRowOut`).
- Components whose names differ only in spaces versus slashes share one CSV file (`Preprocess.SafeFileNamesCollide`).
- The report links into `/component_csvs` by default, but `split_by_component` writes into `./component_csvs` by default (`Webpage.DefaultLinkMissesDefaultFile`).
- gui.py cannot be imported as written. gui.py:8 imports `split_by_project_and_component` from preprocess.py, which does not define it, so the import raises ImportError. gui.py also uses `os` without importing it: `__init__` raises NameError at gui.py:43, and `select_csv` raises NameError at gui.py:171 before it loads the projects. `Gui.BugReportGui` models the methods as if both were fixed.
