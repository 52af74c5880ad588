# Governor press-conference transcript formatter, modelled in Dafny

The app (`main.py`) takes the PDF of a press conference given by the
Governor of Tokyo and turns it into a tidied PDF. It works in three steps:

1. It names the output after the date found in the uploaded file's name:
   `(20250328)会見録.pdf` becomes `2025.3.28知事記者会見.pdf`. A name with no
   date stops the app.
2. It joins the text of every page after the cover with newlines, skipping
   pages without text.
3. It sends that text to a language model, then writes each line of the
   reply onto A4 pages. Lines go 15 points apart between 50-point margins,
   with a new page whenever the next baseline would fall below the bottom
   margin.

This project models steps 1 and 2, the layout part of step 3, and the run
that ties them together. Each operation is a pure function over immutable
values. The language model and the PDF libraries are parameters or inputs.

Modules, in dependency order:

- `Results`: `Option` and `Result`.
- `Sequences`: small facts about sequences that other proofs call on.
- `Strings`: Python's `sep.join`, `s.split(sep)` and `s.strip()`.
- `Decimal`: `int()` of a digit string and `str()` of a natural number.
- `FilenameDate`:
  - the regular expression `[\(\[]?(\d{4})(\d{2})(\d{2})[\)\]]?` under `re.search`;
  - the date it captures;
  - the output file name.
- `PageText`: the text taken from the pages.
- `Pagination`: the drawing loop, with the canvas modelled as the list of calls made on it (`Draw(y, text)`, `PageBreak`).
- `Transcript`: one run of the app, from file name and page texts to output name, prompt and canvas calls.

## Model

| member | source | states |
|---|---|---|
| `Strings.Join` | main.py:33 | `sep.join` of no parts is empty and of one part is that part; `SplitJoin`, `JoinSnoc` and `JoinCount` pin the rest down |
| `Strings.Split` | main.py:64 | `split("\n")` gives one piece more than there are newlines, and no piece contains a newline |
| `Strings.JoinSplit` | main.py:64 | joining the pieces of a split with the separator gives back the original text, so splitting loses nothing |
| `Strings.SplitJoin` | main.py:33 | splitting a newline join of newline-free parts gives back exactly those parts |
| `Strings.JoinSnoc` | main.py:33 | adding one more part to a join appends a separator and the part, as a streaming writer would |
| `Strings.JoinCount` | main.py:33 | a join of separator-free parts holds one separator fewer than there are parts |
| `Strings.StripLeftSpec` | main.py:68 | `lstrip()` keeps a suffix, removes only whitespace, and leaves no whitespace in front |
| `Strings.StripRightSpec` | main.py:68 | `rstrip()` keeps a prefix, removes only whitespace, and leaves no whitespace at the end |
| `Strings.Strip` | main.py:68 | `strip()` never lengthens a line; it is characterised by `StripIsTrim` and `TrimUnique` |
| `Strings.StripIsTrim` | main.py:68 | `strip()` keeps a contiguous slice, only whitespace lies outside it, and neither end of it is whitespace |
| `Strings.TrimUnique` | main.py:68 | only one slice of a string has that shape, so the trim property fully determines `strip()` |
| `Strings.StripIdempotent` | main.py:68 | stripping a stripped line changes nothing |
| `Decimal.Show` | main.py:24 | `str(n)` is a digit string with no leading zero (except `"0"` itself) that denotes exactly `n` |
| `Decimal.Value` | main.py:24 | `int()` of k digits is below 10^k; `ShowValue` and `ShowDropsLeadingZeros` tie it to `str()` |
| `Decimal.ShowValue` | main.py:24 | a digit string without a leading zero is exactly what `str(int(s))` prints back |
| `Decimal.ShowDropsLeadingZeros` | main.py:24 | `str(int(s))` is `s` without its leading zeros, with a lone `0` kept for all-zero input |
| `FilenameDate.MatchAt` | main.py:21 | the pattern matches at a position exactly when eight digits start there, or an opening bracket precedes eight digits; the groups start just after the position when it holds an opening bracket and at it otherwise, and the match ends after a closing bracket that follows the eight digits, if there is one |
| `FilenameDate.Search` | main.py:21 | `re.search` returns the match at the leftmost position where the pattern matches; if there is none, it matches nowhere |
| `FilenameDate.SearchFindsFirstDigits` | main.py:21 | the search fails exactly when the name has no run of eight digits. Otherwise: the groups are the first such run, cut after eight digits; the span takes in an opening bracket just before it and a closing bracket just after it |
| `FilenameDate.GroupsAt` | main.py:23-24 | `int()` of the 4-, 2- and 2-digit groups gives a year below 10000 and a month and day below 100, with no range check beyond that |
| `FilenameDate.ExtractDate` | main.py:21-23 | no date is returned exactly when the name has no eight-digit run. Otherwise the year, month and day are `int()` of the 4-, 2- and 2-digit groups of the first run, with no range check |
| `FilenameDate.FormatGroups` | main.py:24 | the formatted date equals the three digit groups with leading zeros dropped, joined by dots |
| `FilenameDate.OutputFileName` | main.py:21-28 | there is no output name exactly when the app stops for a missing date. Otherwise the name is the dotted date of the first eight-digit run followed by `知事記者会見.pdf` |
| `FilenameDate.SplitDotted` | main.py:24 | three digit strings joined by dots split on `.` back into exactly those strings |
| `FilenameDate.FormatDate` | main.py:24 | reading the dotted date back gives the original year, month and day, so the formatting loses nothing |
| `FilenameDate.OutputName` | main.py:25 | every output name ends with `知事記者会見.pdf`, and what comes before it reads back as the date |
| `FilenameDate.OutputNameInjective` | main.py:24-25 | different dates never share an output name |
| `FilenameDate.BracketedNameExample` | main.py:21-25 | `(20250328)会見録.pdf` gives `2025.3.28知事記者会見.pdf` |
| `FilenameDate.LongRunExample` | main.py:21-25 | `120250328.pdf` gives `1202.50.32知事記者会見.pdf`: a ninth digit in front shifts every part |
| `PageText.NonEmpty` | main.py:33 | the pages kept are exactly the non-empty ones, and there are no more of them than there were pages |
| `PageText.NonEmptyAppend` | main.py:33 | filtering out empty pages commutes with concatenation, so page order is preserved |
| `PageText.Contributing` | main.py:33 | the contributing texts are exactly the non-empty texts of the pages after the cover, none for a document of at most one page; `NonEmptyAppend` adds their order |
| `PageText.ExtractText` | main.py:31-33 | a document of at most one page yields the empty text |
| `PageText.ExtractTextSnoc` | main.py:33 | adding a page at the end appends a newline and its text. A page with no text, or the cover page, leaves the text unchanged; if the text was empty, the new page's text becomes the whole text |
| `PageText.CoverIgnored` | main.py:32-33 | what the cover page holds never affects the text |
| `PageText.EmptyPageInvisible` | main.py:33 | an empty page after the cover leaves no trace, not even a blank line |
| `PageText.ExtractTextSplit` | main.py:33 | when no page after the cover holds a newline (the cover may hold anything), splitting the text on newlines gives back the contributing pages in order, and there is one newline fewer than contributing pages |
| `PageText.ExtractTextEmpty` | main.py:33 | the text is empty exactly when no page after the cover has text |
| `Pagination.LinesPerPage` | main.py:63-69 | a full page holds exactly the rows k ≥ 0 whose baseline `height-50-15k` is still at least 50: the `y < 50` test comes before the draw, so a line may sit exactly on the bottom margin and a page holds `(height-100)/15 + 1` lines |
| `Pagination.Layout` | main.py:64-69 | the loop's calls from a given baseline; characterised by `LayoutDrawsEveryText`, `LayoutShape`, `LayoutLength` and `ChainedUnique` |
| `Pagination.LayoutLength` | main.py:65-68 | each text gives one draw and at most one page break before it |
| `Pagination.Render` | main.py:63-69 | the calls for a list of lines on a fresh canvas, between one and two per line; pinned down by `RenderShape`, `RenderUnique` and `RenderPages` |
| `Pagination.RenderText` | main.py:64 | the rewritten text gives at least one call more than it has newlines, since every piece of the split, blank ones included, is drawn |
| `Pagination.LayoutDrawsEveryText` | main.py:64-69 | from any baseline, the loop draws every text once, in order, and draws nothing else |
| `Pagination.RenderDrawsEveryLine` | main.py:64-68 | every line of the text is drawn stripped, exactly once, in order, blank lines included |
| `Pagination.LayoutShape` | main.py:65-69 | from any baseline at or below the top, every drawn line is between the margins and consecutive calls follow the page rules. A page break comes first exactly when the starting baseline is below the margin, and the calls end with a line |
| `Pagination.RenderShape` | main.py:63-69 | every line is drawn between the margins. Within a page each line is 15 points below the one before. A page ends only when the next baseline would fall below 50, and the next line goes to the top. The first line goes to the top of page one, and no page break dangles at the end |
| `Pagination.ChainedUnique` | main.py:65-69 | two call lists that follow the page rules, start alike, end with a line and draw the same texts are identical |
| `Pagination.RenderUnique` | main.py:63-69 | the loop's output is the only call list that draws the stripped lines, follows the page rules, starts at the top and ends with a line |
| `Pagination.BreakWhenFull` | main.py:65 | with p lines on the page, the baseline is below the margin exactly when the page is full |
| `Pagination.FullPagesShape` | main.py:65-67 | filling pages in order leaves every page but the last full, and the last page holds at least one line |
| `Pagination.FullPagesCount` | main.py:65-67 | the number of pages filled is the number of lines divided by the page capacity, rounded up |
| `Pagination.LayoutPageCounts` | main.py:65-69 | starting with p lines already on the page, the following lines fill pages exactly as pages of capacity `LinesPerPage` fill in order |
| `Pagination.RenderPages` | main.py:63-69 | every page but the last holds exactly `LinesPerPage(height)` lines and the last holds between 1 and that many, so the page count is the line count over the capacity, rounded up |
| `Pagination.DrawLines` | main.py:63-69 | the loop as written, statement by statement, makes exactly the calls of the declarative layout, and so has all the properties proved about it |
| `Transcript.BuildPrompt` | main.py:36-45 | the prompt is the fixed instructions, the text and the closing indentation, of exactly their combined length; `PromptCarriesText` reads the text back |
| `Transcript.PromptCarriesText` | main.py:36-45 | the extracted text can be read back from the prompt whole, whatever it contains |
| `Transcript.BuildPromptInjective` | main.py:36-45 | different texts give different prompts |
| `Transcript.Run` | main.py:21-69 | a run stops exactly when the name has no eight-digit run. Otherwise: the output is named as `OutputFileName` says; the prompt carries the extracted page text; every line of the model's reply is drawn stripped, once, in order, between the margins, following the page rules, with pages filled to capacity. The first line goes at `height - 50` on page one and the last call is a line, so by `RenderUnique` the calls are fully determined |

## Left out

- The web UI is not modelled: upload widget, spinner, success and error messages, download button and secrets. The error message and `st.stop()` become `Err(MissingDate)`.
- The language model is the parameter `ask` of `Transcript.Run`, from prompt to reply. The model name, the system message and the temperature are fixed arguments of the one API call, so `ask` stands for that call made with them; they shape the reply but are not modelled separately. A failing call and a reply with no content are not modelled, and the source does not handle them.
- PDF text extraction is an input: one string per page. The empty string stands for a page whose `extract_text()` returns `None` or `""`, since the source treats the two alike. Calling `extract_text()` twice per page is assumed to give the same result both times.
- PDF writing is recorded as the sequence of canvas calls. The fixed left margin `x = 50` of `drawString` is not recorded. Fonts, glyph coverage, lines wider than the page, `save()` and the output bytes are not modelled.
- The page height is an integer of at least 100 points. The source uses A4's height, 841.89 points, a float. For A4 both give 50 lines per page.
- `FilenameDate` and `Decimal`: `\d` and `int()` are modelled for ASCII digits only, in the whole search (`DigitsAt`, `MatchAt`, `Search`, `SearchFindsFirstDigits`, `ExtractDate`, `OutputFileName`). Python also accepts other Unicode decimal digits, such as full-width digits, and `int()` converts them.
- `Strings.IsSpace` lists the characters Python's `str.isspace` accepts. It is written out by hand, not derived from a Unicode database.
