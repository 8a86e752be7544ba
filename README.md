# Loggy server backend, modelled in Dafny

Loggy's web front end is served by `loggy/lib/server_backend.py`. That file holds the logic behind the HTTP routes:

- a hand-written `multipart/form-data` field extractor;
- an in-memory session store of uploaded log bundles;
- the `/api/analyze` handler, which runs `analyzer.sh` on a session and records the outcome;
- `strip_ansi`, which cleans the analyzer's output;
- the extraction of issues, health score and device id from that output;
- `grep`-based log search with severity and component filters and a result cap;
- per-component line and error counts;
- the loader that merges the fixed signature table with the tab-separated error registry.

This project restates each of these in Dafny and proves what they promise. The modules are:

| module | file | models |
|---|---|---|
| `Text` | `text.dfy` | the Python string primitives the backend relies on: `strip`, `split`, `lower`, the one-letter `upper` of a severity, `replace`, `str(n)`, `os.path.join`, text-mode `readlines`, and the leftmost scan of `re.search` |
| `Multipart` | `multipart.dfy` | `parse_multipart`: the boundary test, the per-part field name, filename and payload, and the resulting dictionary |
| `Control` | `control.dfy` | `strip_ansi` |
| `Extract` | `extract.dfy` | `parse_session_results`: the two issue conventions, the two health-score layouts, the device id and the report listing |
| `AnalyzerOutput` | `analyzer_output.dfy` | round trips showing that issue lists printed in either convention are read back exactly |
| `LogSearch` | `search.dfy` | `search_logs` |
| `Components` | `components.dfy` | `list_components` |
| `Signatures` | `signatures.dfy` | `load_signatures` |
| `Sessions` | `sessions.dfy` | the session dictionary, as class `SessionStore`: `new_session`, `run_analyzer`, the `/api/analyze` handler and the session lookups of the other operations |

The style follows the source:

- Pure computations are functions, with lemmas about them.
- The loops of the source are methods, each proved equal to the function that specifies it (`CollectFields`, `CollectIssues`, `ParseSessionResults`, `SearchParsed`, `CollectLines`, `ListComponents`, `LoadFixed`, `LoadRegistry`, `LoadSignatures`).
- The module-level `sessions` dictionary is the `sessions` field of `SessionStore`. Its methods update that field.
- `SessionStore.Valid` is the invariant every method keeps. Every stored session has:
  - the id it is stored under;
  - the work directory `session_dir/<id>` and the reports directory `<work>/reports`;
  - output free of control characters;
  - a device id with no white space;
  - and, while still `loaded`, exactly the record `new_session` created.

The environment enters only as parameters:

- the uuid;
- the directory listings and file contents;
- the standard output of `grep`;
- how the analyzer subprocess ended (`RunOutcome`);
- the MIME parts the `email` package yields.

For the field name of a multipart part the model covers both the code as written and the corrected reading (see Findings). The `/api/analyze` handler sets the state to `analyzing` (server_backend.py:355) and, in the same request on a single-threaded server, overwrites it with `done` or `error` (server_backend.py:360 and 365). No other request can observe `analyzing`, so the model never stores it. `AfterAnalysisConsistent` proves the final state is always `done` or `error`.

## Model

| member | source | states |
|---|---|---|
| Text.Strip | loggy_v7_4/loggy/lib/server_backend.py:180 | the stripped line is a middle part `s[i..j]` of the line, everything cut off on either side is white space, and the kept part neither starts nor ends with white space: exactly Python's `strip()` |
| Text.StripIdempotent | loggy_v7_4/loggy/lib/server_backend.py:180 | stripping an already stripped line changes nothing |
| Text.Split | loggy_v7_4/loggy/lib/server_backend.py:183 | `split("\t")` yields at least one piece and no piece contains a tab |
| Text.JoinSplit | loggy_v7_4/loggy/lib/server_backend.py:183 | joining the pieces back with the separator gives the line |
| Text.SplitJoin | loggy_v7_4/loggy/lib/server_backend.py:183 | splitting a joined line gives back pieces that contain no separator exactly |
| Text.Trim | loggy_v7_4/loggy/lib/server_backend.py:38 | `strip('"')` keeps a middle part `s[i..j]` of its input, cuts only quotes and only from the two ends, leaves no quote at either end, and changes nothing when the ends are not quotes |
| Text.FirstMatch | loggy_v7_4/loggy/lib/server_backend.py:35 | the `re.search` scan: the reported position is the leftmost one where the pattern matches, with what it matched there; nothing is reported exactly when the pattern matches nowhere |
| Text.TranslateNewlines | loggy_v7_4/loggy/lib/server_backend.py:164 | text-mode reading leaves no carriage return and changes nothing in text without one |
| Text.TranslateNewlinesUnits | loggy_v7_4/loggy/lib/server_backend.py:164 | `\r\n` and a lone `\r` each read as `\n`, and every other character reads as itself |
| Text.TranslateNewlinesAppend | loggy_v7_4/loggy/lib/server_backend.py:164 | the translation goes piece by piece, provided the first piece does not end in `\r`; with the units this fixes the whole translation |
| Text.ReadLines | loggy_v7_4/loggy/lib/server_backend.py:165 | no line that `readlines` yields contains a newline once its terminator is removed; with `ReadLinesUnixText` and `ReadLinesUnterminated` the lines of any text are fixed |
| Text.ReadLinesUnixText | loggy_v7_4/loggy/lib/server_backend.py:164-165 | a file written line by line reads back as exactly those lines |
| Text.ReadLinesUnterminated | loggy_v7_4/loggy/lib/server_backend.py:164-165 | a last line with no newline after it is read as a line of its own, after the newline-terminated lines before it |
| Text.Lower | loggy_v7_4/loggy/lib/server_backend.py:144 | `lower()` keeps the length, leaves no upper-case letter, and changes exactly the upper-case letters, each to its lower-case letter |
| Text.RemoveAll | loggy_v7_4/loggy/lib/server_backend.py:162 | `replace(".parsed", "")` never lengthens the name and changes nothing in a name without `.parsed` |
| Text.RemoveAllPrefix | loggy_v7_4/loggy/lib/server_backend.py:162 | a prefix holding no occurrence of the target is kept as it is |
| Text.RemoveAllFirst | loggy_v7_4/loggy/lib/server_backend.py:162 | the first occurrence of the target is removed and the removal goes on after it |
| Text.Decimal | loggy_v7_4/loggy/lib/server_backend.py:85 | `str(timeout)` is a non-empty run of digits |
| Text.DigitsValueDecimal | loggy_v7_4/loggy/lib/server_backend.py:85 | the printed timeout reads back as the same number |
| Multipart.BoundaryAt | loggy_v7_4/loggy/lib/server_backend.py:35 | `boundary=([^\s;]+)` matches at a position exactly when `boundary=` occurs there followed by a character that is neither white space nor `;`; the captured value is non-empty and made of such characters |
| Multipart.Boundary | loggy_v7_4/loggy/lib/server_backend.py:35-38 | there is no boundary exactly when the pattern matches nowhere in the content type; otherwise the boundary is the leftmost match with its quotes trimmed, contains neither white space nor `;`, and neither begins nor ends with a quote |
| Multipart.BoundaryOfParam | loggy_v7_4/loggy/lib/server_backend.py:35-38 | the boundary of `multipart/form-data; boundary=v` is `v` with its quotes trimmed |
| Multipart.BoundaryRoundTrip | loggy_v7_4/loggy/lib/server_backend.py:35-38 | a boundary written into the content type, quoted or bare, is read back exactly |
| Multipart.QuotedBoundary | loggy_v7_4/loggy/lib/server_backend.py:38 | a quoted boundary is unquoted to the bare boundary |
| Multipart.QuotedValueAt | loggy_v7_4/loggy/lib/server_backend.py:47-52 | a `key"value"` match spells the key, a quote-free value and the closing quote at that position; the value is non-empty unless the pattern allows empty values |
| Multipart.QuotedValueAtComplete | loggy_v7_4/loggy/lib/server_backend.py:47-52 | every occurrence of the quoted form is matched, with its value |
| Multipart.NameAt | loggy_v7_4/loggy/lib/server_backend.py:47 | `name="([^"]+)"` at one position: a non-empty, quote-free value in quotes |
| Multipart.FilenameAt | loggy_v7_4/loggy/lib/server_backend.py:51 | `filename="([^"]*)"` at one position: a possibly empty, quote-free value in quotes |
| Multipart.NameAsWritten | loggy_v7_4/loggy/lib/server_backend.py:47-50 | the name regex searched anywhere in the Content-Disposition, as written: the value of the leftmost `name="…"` match; none exactly when `name="…"` occurs nowhere |
| Multipart.NameAsWrittenTakesFilename | loggy_v7_4/loggy/lib/server_backend.py:47-50 | for `form-data; filename="a.log"; name="file"` the as-written search yields `a.log` |
| Multipart.DispositionName | loggy_v7_4/loggy/lib/server_backend.py:47-50 | the corrected name: the value of the leftmost `name="…"` parameter that begins the header or follows `;` or white space; none exactly when there is no such parameter |
| Multipart.DispositionNameTakesName | loggy_v7_4/loggy/lib/server_backend.py:47-50 | for the same header the corrected name is `file` |
| Multipart.DispositionNameNotFromFilename | loggy_v7_4/loggy/lib/server_backend.py:47-51 | the corrected name never comes from the tail of a `filename="…"` parameter |
| Multipart.NameFirstAgrees | loggy_v7_4/loggy/lib/server_backend.py:47-50 | when the leftmost `name="…"` starts a parameter, as in `form-data; name="file"; filename="x"`, the as-written and the corrected name agree |
| Multipart.Filename | loggy_v7_4/loggy/lib/server_backend.py:51-52 | the value of the leftmost `filename="…"` match; none exactly when there is no match |
| Multipart.FilenameRoundTrip | loggy_v7_4/loggy/lib/server_backend.py:51-52 | a file name written into the upload field's header `form-data; name="file"; filename="…"` is read back exactly |
| Multipart.NameOf | loggy_v7_4/loggy/lib/server_backend.py:47-50 | the name search of a reading: the search as written, or the corrected one |
| Multipart.NameComesFirstAgrees | loggy_v7_4/loggy/lib/server_backend.py:47-50 | when the leftmost `name="…"` of the header starts a parameter, the two readings give the same name |
| Multipart.FieldName | loggy_v7_4/loggy/lib/server_backend.py:44-50 | a part with an empty or missing Content-Disposition yields no field; any other is named by the reading's search of its header |
| Multipart.FieldOf | loggy_v7_4/loggy/lib/server_backend.py:51-56 | a field holds the part's filename and its decoded payload, or empty data when the payload is missing |
| Multipart.EntryOf | loggy_v7_4/loggy/lib/server_backend.py:44-56 | a part contributes an entry exactly when it has a field name, and the entry is that name with the part's field |
| Multipart.StoreKeys | loggy_v7_4/loggy/lib/server_backend.py:56 | assigning entries into a dictionary in order: a key is present exactly when some entry carries it |
| Multipart.StoreLastWins | loggy_v7_4/loggy/lib/server_backend.py:56 | a key maps to the value of its last entry |
| Multipart.FormFieldsKeys | loggy_v7_4/loggy/lib/server_backend.py:43-56 | under either reading, the result has a field exactly for the names of the parts that have one |
| Multipart.FormFields | loggy_v7_4/loggy/lib/server_backend.py:43-56 | the dictionary after the loop over the parts, each named part stored in turn; `FormFieldsKeys` and `FormFieldsLastWins` give its keys and values, and `CollectFields` is the loop itself |
| Multipart.FormFieldsLastWins | loggy_v7_4/loggy/lib/server_backend.py:56 | under either reading, a repeated field name keeps the last part with that name |
| Multipart.FormFieldsReadingsAgree | loggy_v7_4/loggy/lib/server_backend.py:43-56 | when every part names itself before any filename, the parser as written and the corrected one store the same fields |
| Multipart.FilenameFirstUpload | loggy_v7_4/loggy/lib/server_backend.py:43-56 | for a part whose header is `form-data; filename="a.log"; name="file"`, the parser as written stores the field `a.log`, so the upload route finds no `file`; the corrected one stores `file` |
| Multipart.Fields | loggy_v7_4/loggy/lib/server_backend.py:35-37 | without a boundary the result is the empty dictionary; with one it is the form fields of the parts |
| Multipart.CollectFields | loggy_v7_4/loggy/lib/server_backend.py:42-56 | the loop over the parts builds exactly the dictionary of form fields, under either reading |
| Multipart.ParseMultipart | loggy_v7_4/loggy/lib/server_backend.py:30-57 | the whole parser equals its specification under either reading: empty without a boundary, else the form fields of the parts |
| Control.CsiPrefix | loggy_v7_4/loggy/lib/server_backend.py:90 | the prefix recognised at a position is one `ESC [ params letter` sequence; none means no prefix is one |
| Control.IsCsi | loggy_v7_4/loggy/lib/server_backend.py:90 | the pattern `\x1b\[[0-9;]*[a-zA-Z]` as a predicate on one sequence: ESC, `[`, digits and semicolons, one ASCII letter |
| Control.CsiPrefixOf | loggy_v7_4/loggy/lib/server_backend.py:90 | a sequence at the front of the text is recognised in full, whatever follows it |
| Control.IsControl | loggy_v7_4/loggy/lib/server_backend.py:91 | the class `[\x00-\x08\x0b\x0c\x0e-\x1f\x7f]` as a predicate on one character |
| Control.RemoveControl | loggy_v7_4/loggy/lib/server_backend.py:91 | no removable control character remains, and text without one is unchanged |
| Control.StripAnsi | loggy_v7_4/loggy/lib/server_backend.py:89-92 | the result contains no ESC and no control character other than tab, newline and carriage return; `StripAnsiDropsSequence` says which sequences go |
| Control.RemoveCsi | loggy_v7_4/loggy/lib/server_backend.py:90 | the first substitution never lengthens the text; `RemoveCsiDrops` and `RemoveCsiKeepsPlain` say what it removes and what it keeps |
| Control.RemoveCsiNoEsc | loggy_v7_4/loggy/lib/server_backend.py:90 | text without ESC holds no sequence and comes back unchanged |
| Control.RemoveCsiDrops | loggy_v7_4/loggy/lib/server_backend.py:90 | a sequence is deleted and the scan resumes right after its letter: `RemoveCsi(t + b) == RemoveCsi(b)` |
| Control.RemoveCsiKeepsPlain | loggy_v7_4/loggy/lib/server_backend.py:90 | ESC-free text in front passes through unchanged and the rest is scanned on its own |
| Control.RemoveControlAppend | loggy_v7_4/loggy/lib/server_backend.py:91 | control removal splits over a concatenation |
| Control.StripAnsiDropsSequence | loggy_v7_4/loggy/lib/server_backend.py:89-92 | a sequence anywhere after ESC-free text is removed: `StripAnsi(a + t + b) == RemoveControl(a) + StripAnsi(b)` |
| Control.StripAnsiColouredWord | loggy_v7_4/loggy/lib/server_backend.py:89-92 | `"\x1b[31mred"` is cleaned to `"red"` |
| Control.RemoveCsiKeeps | loggy_v7_4/loggy/lib/server_backend.py:90 | removing escape sequences keeps every character that cannot belong to one |
| Control.RemoveControlKeeps | loggy_v7_4/loggy/lib/server_backend.py:91 | removing control characters keeps every other character |
| Control.StripAnsiKeepsLayout | loggy_v7_4/loggy/lib/server_backend.py:89-92 | tabs, newlines and carriage returns survive in the same number, so the line structure of the output is kept |
| Control.StripAnsiClean | loggy_v7_4/loggy/lib/server_backend.py:89-92 | text without control characters is returned unchanged |
| Control.StripAnsiIdempotent | loggy_v7_4/loggy/lib/server_backend.py:89-92 | cleaning twice is cleaning once |
| Control.RemoveCsiAloneNotIdempotent | loggy_v7_4/loggy/lib/server_backend.py:90 | the escape-sequence pass alone is not idempotent: removing one sequence can form another |
| Extract.SeverityName | loggy_v7_4/loggy/lib/server_backend.py:106 | every severity keyword is a non-empty word |
| Extract.KeywordAt | loggy_v7_4/loggy/lib/server_backend.py:106 | the alternation `CRITICAL\|HIGH\|MEDIUM\|LOW` matches the keyword of the severity it reports |
| Extract.TitleAfter | loggy_v7_4/loggy/lib/server_backend.py:106 | the `\s+(.+?)(?:\n\|$)` tail captures a non-empty title within one line, ending after the start |
| Extract.IssueAt | loggy_v7_4/loggy/lib/server_backend.py:106-109 | an issue match at a position ends past it and captures a non-empty single-line title |
| Extract.NextMatch | loggy_v7_4/loggy/lib/server_backend.py:106 | the next match is the leftmost one at or after the position |
| Extract.Scan | loggy_v7_4/loggy/lib/server_backend.py:106-110 | `finditer`: the matches are in order and do not overlap, each is a match at its position, and there are none exactly when the pattern matches nowhere |
| Extract.ScanComplete | loggy_v7_4/loggy/lib/server_backend.py:106-110 | every position where the pattern matches lies inside some reported match |
| Extract.Titles | loggy_v7_4/loggy/lib/server_backend.py:106-110 | one issue per match; `TitlesAt` gives each one |
| Extract.TitlesAt | loggy_v7_4/loggy/lib/server_backend.py:107 | the i-th issue is the i-th match's severity with its title stripped |
| Extract.TitlesClean | loggy_v7_4/loggy/lib/server_backend.py:107 | the stored titles are stripped and span one line |
| Extract.Issues | loggy_v7_4/loggy/lib/server_backend.py:105-110 | the issue titles are stripped and span one line |
| Extract.ConventionsNeverMerged | loggy_v7_4/loggy/lib/server_backend.py:106-110 | `#n` issues are used when there are any; the bracketed ones are used only when there are none |
| Extract.GradeLayoutAt | loggy_v7_4/loggy/lib/server_backend.py:111 | a `Health Score: n / 100 Grade: X` match carries a grade from A to F |
| Extract.ScoreAtSound | loggy_v7_4/loggy/lib/server_backend.py:111-113 | the score a layout reads is the value of the whole digit run after `Health Score:` and its white space |
| Extract.ScoreAtReads | loggy_v7_4/loggy/lib/server_backend.py:111-113 | `Health Score: ` followed by a run of digits reads back the value of those digits, wherever it stands |
| Extract.GradeLayoutSound | loggy_v7_4/loggy/lib/server_backend.py:111 | a `Grade:` match reads its score from the digits after the keyword, and the text holds `Grade:` after the keyword |
| Extract.GradeLayoutReads | loggy_v7_4/loggy/lib/server_backend.py:111 | the pieces of a `Health Score: n/100 Grade: X` line at any position are matched there, with score `n` and grade `X` |
| Extract.NoGradeLayoutWithoutG | loggy_v7_4/loggy/lib/server_backend.py:111 | text without a `G` never matches the `Grade:` layout |
| Extract.ParenLayoutAt | loggy_v7_4/loggy/lib/server_backend.py:113 | a `Health Score: n/100 (X)` match carries a grade from A to F |
| Extract.ParenLayoutSound | loggy_v7_4/loggy/lib/server_backend.py:113 | a `(X)` match reads its score from the digits after the keyword |
| Extract.ParenLayoutReads | loggy_v7_4/loggy/lib/server_backend.py:113 | the pieces of a `Health Score: n/100 (X)` line at any position are matched there, with score `n` and grade `X` |
| Extract.HealthOf | loggy_v7_4/loggy/lib/server_backend.py:111-115 | health is the leftmost `Grade:` match when there is one, else the leftmost `(X)` match, and absent exactly when neither layout matches anywhere; its grade is from A to F |
| Extract.HealthOfGradeLine | loggy_v7_4/loggy/lib/server_backend.py:111-115 | a printed `Health Score: n/100 Grade: X` line is read back as score `n` and grade `X` |
| Extract.HealthOfParenLine | loggy_v7_4/loggy/lib/server_backend.py:111-115 | a printed `Health Score: n/100 (X)` line is read back as score `n` and grade `X`, since it matches no `Grade:` layout |
| Extract.DeviceAt | loggy_v7_4/loggy/lib/server_backend.py:116 | a match at a position is `Device`, the first colon after it on the same line, white space, and the whole token that follows; no match after `Device` means only white space follows that colon |
| Extract.DeviceAtReads | loggy_v7_4/loggy/lib/server_backend.py:116 | `Device`, the first colon on its line, white space and a token is a match at that position with that token |
| Extract.DeviceAtIff | loggy_v7_4/loggy/lib/server_backend.py:116 | a position matches with a token exactly when the text there reads as `Device`, first colon, white space and that whole token |
| Extract.DeviceId | loggy_v7_4/loggy/lib/server_backend.py:116-118 | the device id is the token of the leftmost match, a non-empty token without white space; there is none exactly when the pattern matches nowhere |
| Extract.DeviceIdOfLine | loggy_v7_4/loggy/lib/server_backend.py:116-118 | a printed `Device ID: <token>` line yields that token as the device id |
| Extract.Results | loggy_v7_4/loggy/lib/server_backend.py:99-119 | one report per listed file, in listing order, with its name and size |
| Extract.ParseSessionResults | loggy_v7_4/loggy/lib/server_backend.py:99-119 | the loops build exactly the specified results |
| Extract.CollectIssues | loggy_v7_4/loggy/lib/server_backend.py:106-110 | the `finditer` loop collects exactly the stripped titles of the scanned matches |
| AnalyzerOutput.NumberedLineMatch | loggy_v7_4/loggy/lib/server_backend.py:106 | a printed `#n SEVERITY title` line is matched in full where it starts, with its severity and title |
| AnalyzerOutput.BracketedLineMatch | loggy_v7_4/loggy/lib/server_backend.py:109 | a printed `[SEVERITY] title` line is matched in full where it starts |
| AnalyzerOutput.ScanRows | loggy_v7_4/loggy/lib/server_backend.py:106-110 | when the matches chain from one printed line to the next, the scan yields exactly the printed issues |
| AnalyzerOutput.NumberedRoundTrip | loggy_v7_4/loggy/lib/server_backend.py:105-110 | a report of numbered issues with printable single-line titles is read back as exactly those issues |
| AnalyzerOutput.BracketedRoundTrip | loggy_v7_4/loggy/lib/server_backend.py:105-110 | a report of bracketed issues whose titles contain no `#` is read back as exactly those issues |
| AnalyzerOutput.NoHashNoNumbered | loggy_v7_4/loggy/lib/server_backend.py:106-108 | output without `#` has no numbered issues, so the bracketed convention is used |
| AnalyzerOutput.HeadThenLineMatch | loggy_v7_4/loggy/lib/server_backend.py:106 | `\s+` also matches a newline, so a `#n SEVERITY` line without a title takes the next line as its title |
| AnalyzerOutput.MissingTitleTakesNextLine | loggy_v7_4/loggy/lib/server_backend.py:105-110 | output `#n SEVERITY` followed by a new line yields one issue titled with that next line |
| LogSearch.SeverityMarker | loggy_v7_4/loggy/lib/server_backend.py:131-134 | the marker is non-empty exactly when the severity is one of E, W, I, C, N in either case, and then it is `|X|` with `X` that letter in upper case |
| LogSearch.Truncate | loggy_v7_4/loggy/lib/server_backend.py:146 | a hit line is a prefix of the grep line of at most 300 characters, and the whole line when it is short enough |
| LogSearch.GrepAll | loggy_v7_4/loggy/lib/server_backend.py:135-138 | one grep result per parsed file |
| LogSearch.GrepLines | loggy_v7_4/loggy/lib/server_backend.py:138-139 | grep's output, read in text mode so its line breaks are translated, then stripped and split at "\n": at least one piece, none with a line break |
| LogSearch.GrepLinesOfOutput | loggy_v7_4/loggy/lib/server_backend.py:138-139 | lines printed one per "\n" come back exactly, when the first begins and the last ends with a non-space character, as a `grep -n` line does |
| LogSearch.LineHits | loggy_v7_4/loggy/lib/server_backend.py:139-146 | a file contributes at most one hit per output line |
| LogSearch.LineHitsSound | loggy_v7_4/loggy/lib/server_backend.py:139-146 | every hit of a file names the file and is a kept grep line, truncated |
| LogSearch.LineHitsComplete | loggy_v7_4/loggy/lib/server_backend.py:139-146 | every kept grep line of a file is a hit |
| LogSearch.LineHitsAppend | loggy_v7_4/loggy/lib/server_backend.py:139-146 | the hits of concatenated output are the hits of each part, in order |
| LogSearch.Keep | loggy_v7_4/loggy/lib/server_backend.py:140-145 | the three `continue` tests passed: the line is not empty, holds the severity marker when one applies, and holds the component in lower case when one is given; `LineHitsSound` and `LineHitsComplete` tie the hits to it |
| LogSearch.AllHits | loggy_v7_4/loggy/lib/server_backend.py:135-150 | every hit of every file, files in order; `AllHitsAppend` and `AllHitsSound` state its order and origin |
| LogSearch.AllHitsAppend | loggy_v7_4/loggy/lib/server_backend.py:135-150 | the hits of consecutive files are the hits of each file, in order |
| LogSearch.AllHitsSound | loggy_v7_4/loggy/lib/server_backend.py:135-150 | every hit comes from a file whose grep succeeded, and is a kept line of it |
| LogSearch.Cap | loggy_v7_4/loggy/lib/server_backend.py:147-148 | the effective cap is at least one, since the length test follows the append, and equals `max_results` when that is positive |
| LogSearch.Search | loggy_v7_4/loggy/lib/server_backend.py:126-151 | without a parsed directory the single placeholder entry; otherwise a prefix of all hits: all of them when they fit under the cap, exactly the cap's number of them when they do not |
| LogSearch.UnknownSeverityIsNoFilter | loggy_v7_4/loggy/lib/server_backend.py:131-134 | a severity other than E, W, I, C or N filters nothing |
| LogSearch.SearchSound | loggy_v7_4/loggy/lib/server_backend.py:126-151 | every result is the placeholder or a truncated kept line of some parsed file |
| LogSearch.SearchComplete | loggy_v7_4/loggy/lib/server_backend.py:135-151 | when the hits fit under the cap, every kept line of every file is returned |
| LogSearch.CollectLines | loggy_v7_4/loggy/lib/server_backend.py:139-148 | the inner loop appends a file's hits, stopping exactly when the cap is reached |
| LogSearch.SearchParsed | loggy_v7_4/loggy/lib/server_backend.py:130-151 | the loops compute exactly the specified search |
| Components.CountLines | loggy_v7_4/loggy/lib/server_backend.py:167-168 | a count never exceeds the number of lines; `CountLinesMatching` gives its value |
| Components.CountLinesAll | loggy_v7_4/loggy/lib/server_backend.py:167-168 | every line is counted exactly when every line qualifies |
| Components.CountLinesNone | loggy_v7_4/loggy/lib/server_backend.py:167-168 | no line is counted exactly when no line qualifies |
| Components.CountLinesMatching | loggy_v7_4/loggy/lib/server_backend.py:167-168 | the count is the number of positions whose line satisfies the test, as `sum(1 for l in lines if …)` is |
| Components.IsErrorLine | loggy_v7_4/loggy/lib/server_backend.py:167 | an error line holds `|E|` or `|C|`; `MarkedLines` shows which lines qualify |
| Components.IsWarningLine | loggy_v7_4/loggy/lib/server_backend.py:168 | a warning line holds `|W|`; `MarkedLines` shows which lines qualify |
| Components.MarkedLines | loggy_v7_4/loggy/lib/server_backend.py:167-168 | a line holding `|E|` or `|C|` is an error line and one holding `|W|` a warning line; a line with no `|` is neither |
| Components.CountsOf | loggy_v7_4/loggy/lib/server_backend.py:163-171 | errors and warnings never exceed the total; an unreadable file counts zeros |
| Components.CountsOfWrittenLines | loggy_v7_4/loggy/lib/server_backend.py:164-168 | a file written line by line counts one per line, with the error and warning counts of those lines |
| Components.ComponentsKeys | loggy_v7_4/loggy/lib/server_backend.py:159-171 | the components are exactly the names of the files |
| Components.ComponentsLastWins | loggy_v7_4/loggy/lib/server_backend.py:162-171 | a component holds the counts of the last file with its name |
| Components.ComponentsSound | loggy_v7_4/loggy/lib/server_backend.py:159-171 | every component holds the counts of some file with its name, with errors and warnings within the total |
| Components.Components | loggy_v7_4/loggy/lib/server_backend.py:159-171 | the dictionary after the loop: each file sets the entry of its component name; `ComponentsKeys`, `ComponentsLastWins` and `ComponentsSound` give its keys and values |
| Components.ComponentNameOfStem | loggy_v7_4/loggy/lib/server_backend.py:162 | a dot-free stem with `.parsed` appended names itself |
| Components.ComponentName | loggy_v7_4/loggy/lib/server_backend.py:162 | the component name is never longer than the file name, and a file name without `.parsed` is its own component name |
| Components.DoubledSuffixCollides | loggy_v7_4/loggy/lib/server_backend.py:162 | for a dot-free stem `x`, `x.parsed.parsed` and `x.parsed` both name component `x`, so one of the two files is lost |
| Components.ComponentNameOfDoubled | loggy_v7_4/loggy/lib/server_backend.py:162 | every occurrence of `.parsed` is removed: a dot-free stem with `.parsed` appended twice names itself |
| Components.ListComponents | loggy_v7_4/loggy/lib/server_backend.py:159-171 | the loop builds exactly the specified component table |
| Signatures.Fields | loggy_v7_4/loggy/lib/server_backend.py:183 | a line always has at least one field |
| Signatures.StripAll | loggy_v7_4/loggy/lib/server_backend.py:180 | every line is stripped, none dropped |
| Signatures.DataLines | loggy_v7_4/loggy/lib/server_backend.py:181-182 | skipping blank and comment lines never adds lines |
| Signatures.DataLinesMembers | loggy_v7_4/loggy/lib/server_backend.py:181-182 | a line is kept exactly when it is neither blank nor a `#` comment |
| Signatures.IsDataLine | loggy_v7_4/loggy/lib/server_backend.py:181-182 | the skip test of both loops as a predicate: a stripped line that is neither empty nor a `#` comment |
| Signatures.FileDataLines | loggy_v7_4/loggy/lib/server_backend.py:179-182 | the data lines of a file are exactly its stripped lines that are neither blank nor comments |
| Signatures.FixedSignature | loggy_v7_4/loggy/lib/server_backend.py:184-191 | a row makes a signature exactly when it has at least six fields; the source is `signatures` and the KB URL is the seventh field or empty |
| Signatures.EntryOf | loggy_v7_4/loggy/lib/server_backend.py:183-191 | a line yields at most one signature |
| Signatures.FixedEntriesMembers | loggy_v7_4/loggy/lib/server_backend.py:179-191 | the fixed table yields exactly the signatures of its data rows with six or more fields |
| Signatures.Index | loggy_v7_4/loggy/lib/server_backend.py:201 | the last column name is always in the column map |
| Signatures.IndexSpec | loggy_v7_4/loggy/lib/server_backend.py:201 | the column map holds exactly the header names, each mapped to its last position |
| Signatures.ColMap | loggy_v7_4/loggy/lib/server_backend.py:201 | the enumerate comprehension over the stripped header names; `ColMapSpec` gives its keys and positions |
| Signatures.ColMapSpec | loggy_v7_4/loggy/lib/server_backend.py:201 | a name is a column exactly when some stripped header name equals it, and it maps to the last such position |
| Signatures.ColMapNonEmpty | loggy_v7_4/loggy/lib/server_backend.py:200-202 | a header line always gives a non-empty column map, so exactly one header line is consumed |
| Signatures.RegistryRow | loggy_v7_4/loggy/lib/server_backend.py:203-221 | a row makes a signature exactly when it has at least four fields; the source is `registry`, the KB URL is empty and the root cause repeats the title |
| Signatures.Col | loggy_v7_4/loggy/lib/server_backend.py:203-207 | the field under the named column when the header has it and the row reaches it, else the default; `RegistryDefaults` states the consequences for the severity and on-site columns |
| Signatures.RegistryDefaults | loggy_v7_4/loggy/lib/server_backend.py:203-207 | a missing or out-of-range `severity` column gives `MEDIUM`, a present one gives its field, and a missing `onSiteServiceRequired` gives `false` |
| Signatures.RowEntryOf | loggy_v7_4/loggy/lib/server_backend.py:208-221 | a registry line yields at most one signature |
| Signatures.RegistryLineStep | loggy_v7_4/loggy/lib/server_backend.py:195-221 | the first data line sets the column map and yields nothing; every later line keeps the map and adds its own signature, if any |
| Signatures.RowEntriesMembers | loggy_v7_4/loggy/lib/server_backend.py:208-221 | the registry rows yield exactly the signatures of the rows with four or more fields |
| Signatures.RegistryEntriesMembers | loggy_v7_4/loggy/lib/server_backend.py:195-221 | the registry yields exactly the signatures of the data lines after the header, read through the header's column map |
| Signatures.LoadFixed | loggy_v7_4/loggy/lib/server_backend.py:177-191 | the loop over the fixed table builds exactly its entries |
| Signatures.LoadRegistry | loggy_v7_4/loggy/lib/server_backend.py:192-221 | the loop over the registry builds exactly its entries |
| Signatures.LoadSignatures | loggy_v7_4/loggy/lib/server_backend.py:175-222 | the fixed signatures come first and the registry's follow; a missing file contributes nothing |
| Signatures.AllSignatures | loggy_v7_4/loggy/lib/server_backend.py:175-222 | the list `load_signatures` returns, from the two files' contents or their absence |
| Signatures.AllSignaturesSources | loggy_v7_4/loggy/lib/server_backend.py:175-222 | every entry is from `signatures` or `registry`, no known signature follows a registry entry, and a missing file contributes no entry of its source |
| Sessions.RunAnalyzer | loggy_v7_4/loggy/lib/server_backend.py:76-87 | a finished run passes code and output through; a timeout gives code 124, no output and `Timeout after <n>s`; any other failure gives code 1, no output and the message |
| Sessions.FinalState | loggy_v7_4/loggy/lib/server_backend.py:360-365 | the session ends `done` exactly when the analyzer exited 0 or wrote some report, `error` otherwise |
| Sessions.AnalyzerArgsShape | loggy_v7_4/loggy/lib/server_backend.py:350-354 | the arguments are the six fixed options with mode and reports directory, then exactly the requested `--web`, `--mail` and `--tickets` flags in that order, then the input path |
| Sessions.AnalyzerArgs | loggy_v7_4/loggy/lib/server_backend.py:350-354 | the analyzer's argument list; `AnalyzerArgsShape` states its layout and which flags it holds |
| Sessions.StoreUpdate | loggy_v7_4/loggy/lib/server_backend.py:60 | storing a consistent record keeps the store valid |
| Sessions.AfterAnalysisConsistent | loggy_v7_4/loggy/lib/server_backend.py:355-365 | analysis keeps a session consistent and leaves it `done` or `error`, never `analyzing` |
| Sessions.AfterAnalysis | loggy_v7_4/loggy/lib/server_backend.py:355-365 | the record after the handler: the cleaned output, the final state and the device id when the output has one; `AfterAnalysisConsistent` and `TimedOutAnalysis` state what it keeps |
| Sessions.TimedOutAnalysis | loggy_v7_4/loggy/lib/server_backend.py:84-85 | a timed-out analysis without reports ends `error` with empty output, the previous device id and the timeout message |
| Sessions.SessionStore.constructor | loggy_v7_4/loggy/lib/server_backend.py:60 | the store starts empty and valid |
| Sessions.SessionStore.NewSession | loggy_v7_4/loggy/lib/server_backend.py:62-73 | the id is the first twelve hex digits; the store gains the fresh `loaded` record under it and stays valid |
| Sessions.Fresh | loggy_v7_4/loggy/lib/server_backend.py:66-71 | the record `new_session` files: its own id, input path, `work_dir` and `reports` below it, state `loaded` and empty strings elsewhere |
| Sessions.FreshConsistent | loggy_v7_4/loggy/lib/server_backend.py:62-73 | a freshly created record meets the store's invariant under its id |
| Sessions.SessionStore.Analyze | loggy_v7_4/loggy/lib/server_backend.py:340-367 | an unknown session is answered `Session not found` and nothing changes; otherwise the analyzer gets the specified arguments, only that session is replaced by its analysed record, and the reply carries `ok` as "some report exists", the exit code and the cleaned output |
| Sessions.SessionStore.Info | loggy_v7_4/loggy/lib/server_backend.py:282-290 | an unknown session is not found; a known one gives its stored record, under its own id, never `analyzing`, and while `loaded` exactly the record `new_session` created |
| Sessions.SessionStore.SearchLogs | loggy_v7_4/loggy/lib/server_backend.py:122-151 | an unknown session finds nothing; a known one gives the specified search |
| Sessions.SessionStore.ListComponents | loggy_v7_4/loggy/lib/server_backend.py:154-172 | nothing exactly for an unknown session; otherwise the specified component table |
| Sessions.SessionStore.ParseSessionResults | loggy_v7_4/loggy/lib/server_backend.py:95-119 | none exactly for an unknown session; otherwise the results of the session's stored output and reports directory |

## Left out

- The HTTP server, the request routing, JSON encoding and every route except `/api/analyze`. The model covers the data that route records and returns, and the session lookups of the search, component and results routes.
- The `email` package: `Multipart` takes the MIME parts as given, each with its Content-Disposition header and decoded payload. Reading the request body and decoding bytes with `errors="replace"` are not modelled. `Fields` therefore tests only that a boundary is present. Which parts the parser finds under that boundary is not modelled.
- `uuid.uuid4()` is a parameter of `NewSession`, given as its hex digits. `os.makedirs`, `glob` and `os.path.getsize` are not modelled. Directory listings and file sizes are inputs, in the order the source sorts or lists them.
- `analyzer.sh` and `subprocess.run` are not modelled. How the run ended is the parameter `RunOutcome`. The environment passed to the child is not modelled.
- `grep -i -n`: the model takes each file's `grep` output, or its failure, as an input. The case-insensitive matching of the pattern is not modelled.
- The `after` and `before` parameters of `search_logs` are accepted and never used by the source, so the model has none.
- Case mapping (`Text.Lower`, `Text.UpperChar`) covers ASCII letters only. Python maps all of Unicode.
- `load_signatures` checks files with `os.path.isfile`. A missing file is `None`. An error while reading an existing file propagates in the source and is not modelled.
- `list_components` answers an unknown session with a list (`[]`) and a known one with a dictionary. `SessionStore.ListComponents` returns `None` and `Some(map)` for these.
- Concurrency: the source runs on a single-threaded `HTTPServer`, so the transient `analyzing` state is never observable. The model never stores it.
- The JSON truthiness of `web`, `mail` and `tickets` in the request body is modelled as booleans, and `mode` as a string.
- Text.Lower: maps the ASCII letters A-Z only; Python's `lower()` also maps every other upper-case Unicode letter.
- Text.IsDigit: `\d` and `int()` are modelled for the ASCII digits 0-9 only; Python's `re` and `int()` also accept every other Unicode decimal digit.
- Sessions.SessionStore.Info: returns the stored record; the JSON rendering of the info route, with the base name of the input path and the `glob` listing of the reports directory, is not modelled.

## Findings

| source | as written | input that shows it | evidently intended | confidence | as-written member | corrected member |
|---|---|---|---|---|---|---|
| loggy_v7_4/loggy/lib/server_backend.py:47 | `re.search(r'name="([^"]+)"', cd)` finds the leftmost `name="…"` anywhere in the Content-Disposition header, including the tail of `filename="…"` | Content-Disposition `form-data; filename="a.log"; name="file"` stores the part under field `a.log`, so the upload route's lookup of field `file` (server_backend.py:322) finds nothing for such a client | the value of the `name` parameter, here `file` | medium; not executed | Multipart.NameAsWrittenTakesFilename | Multipart.DispositionNameTakesName |

`Multipart.NameAsWritten` models the search as written. `Multipart.DispositionName` is the corrected reading: it only accepts `name=` at the start of a parameter. `Multipart.DispositionNameNotFromFilename` proves the corrected reading never takes a filename.

`Multipart.FieldName`, `Multipart.CollectFields` and `Multipart.ParseMultipart` take a `Reading`: `AsWritten` runs the search of line 47 as written, `Corrected` the corrected one. `Multipart.FilenameFirstUpload` shows the whole parser as written storing the part above under `a.log`, where the upload route finds no `file`, and the corrected parser storing it under `file`. `Multipart.NameFirstAgrees`, `Multipart.NameComesFirstAgrees` and `Multipart.FormFieldsReadingsAgree` show that the two agree on headers whose `name` parameter comes before `filename`, which is the order browsers send.
