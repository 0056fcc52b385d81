# greppy, modelled in Dafny

greppy is a small `grep`. It is called as `greppy <query> <filename>`. It reads the
whole file and prints every line that contains the query, with each occurrence of
the query shown in bold red. If the environment variable `CASE_INSENSITIVE` is
set, lines are matched without regard to case. The whole program is
`src/lib.rs`, and this project models all of it except its input and output:

- `Strings.dfy` (module `Strings`): the standard-library text operations the
  program uses. These are literal substring search (`str::contains`),
  lowercasing (`str::to_lowercase`, here ASCII only) and splitting into lines
  (`str::lines`).
- `Search.dfy` (module `LineSearch`): `search` and `search_case_insensitive`.
  Each is a loop that pushes the matching lines onto a result list. Both are
  proved against one specification function, `Matching`.
- `Highlight.dfy` (module `Highlighting`): the highlighting loop inside `run`.
  It takes the positions `match_indices` reports and walks a cursor `last`
  along the line. Instead of printing, it returns the pieces it would print as
  `Segment(text, highlighted)` values.
- `Cli.dfy` (module `Cli`): the `Config` record and `Config::new`. The
  arguments are a `seq<string>` read with an index. The environment lookup is a
  boolean parameter.
- `Greppy.dfy` (module `Greppy`): `run` after the file has been read. It picks
  the search for the configured mode and highlights every line found.
- `Tests.dfy` (module `Tests`): the two unit tests of `src/lib.rs`, proved as
  lemmas about the model.

`str::lines` is modelled as Rust's standard library defines it. The text is cut
after every `\n`. Each piece that ended in `\n` loses the `\n` and then one
`\r` just before it, if there is one. A last piece without a `\n` is kept
whole, including a trailing `\r`. A final `\n` does not produce an extra empty
line, and empty text has no lines.

`match_indices` is modelled as leftmost-first and non-overlapping. After a
match, the cursor moves past the whole match. After a match of the empty query,
it moves one place, so the empty query matches at every position, including the
end of the line.

Where the written design and the code differ, the model follows the code:

- The code does not require the query or the file name to be non-empty. `""`
  is accepted, and an empty query matches, and highlights, at every position.
- The code strips a `\r` before each `\n`, because `str::lines` does.
- `Config::new` receives the whole argument list and skips the first entry,
  the program path.
- Too many arguments is reported before the environment is looked at.

## Model

| member | source | states |
|---|---|---|
| `Strings.ContainsStep` | src/lib.rs:60 | the substring test holds exactly when the query is a prefix of the line or occurs in the line's tail, i.e. the usual left-to-right scan |
| `Strings.ContainsEmpty` | src/lib.rs:60 | the empty query is contained in every line |
| `Strings.ContainsLower` | src/lib.rs:46-49 | if a line contains the query, its lowercased form contains the lowercased query |
| `Strings.NewlineIndex` | src/lib.rs:59 | returns the position of the first line feed, or the length when there is none |
| `Strings.Lines` | src/lib.rs:59 | the line list is empty exactly when the text is empty |
| `Strings.LinesHaveNoNewline` | src/lib.rs:59 | no line that `str::lines` yields contains a line feed |
| `Strings.LinesCons` | src/lib.rs:59 | a first line with no line feed, then `\n`, gives that line (with a trailing `\r` removed) followed by the lines of the rest |
| `Strings.LinesSingle` | src/lib.rs:59 | non-empty text without a line feed is one line, kept whole |
| `Strings.LinesJoinLines` | src/lib.rs:59 | splitting undoes writing each line followed by `\n`, for lines with no `\n` and no trailing `\r` |
| `Strings.JoinLinesLines` | src/lib.rs:59 | for text without `\r`, writing the lines back gives the text, plus a final `\n` only when the text lacked one; a final `\n` adds no empty line |
| `LineSearch.MatchingPositions` | src/lib.rs:57-66 | the result is exactly the matching lines of the input, in order: the k-th result is the line at the k-th matching position, and the positions strictly increase and are all the positions whose line matches |
| `LineSearch.MatchingSound` | src/lib.rs:60-61 | every line in the result matches the query |
| `LineSearch.MatchingFromInput` | src/lib.rs:48-51 | every line in the result is one of the input lines, unchanged, so the case-insensitive search never returns a lowercased line |
| `LineSearch.MatchingAppend` | src/lib.rs:59-63 | searching two blocks of lines one after the other gives the two results joined |
| `LineSearch.MatchingEmptyQuery` | src/lib.rs:59-63 | the empty query keeps every line, in either mode |
| `LineSearch.ExactHitsAreCaseInsensitiveHits` | src/lib.rs:46-49 | every case-sensitive hit is also a case-insensitive hit, so the case-insensitive result is at least as long |
| `LineSearch.Search` | src/lib.rs:57-66 | the loop returns `Matching` of the lines of the contents; every line returned contains the query; empty contents give no lines; the empty query gives every line |
| `LineSearch.SearchCaseInsensitive` | src/lib.rs:43-55 | the loop, which lowercases the query once and each line for its test, returns the lines whose lowercased form contains the lowercased query; each is an original line; empty contents give no lines; the empty query gives every line |
| `Tests.CaseSensitiveScenario` | src/lib.rs:116-125 | searching "Rust:\nsafe, fast, productive.\nPick three.\nDuct tape." for "duct" gives only "safe, fast, productive." |
| `Tests.CaseInsensitiveScenario` | src/lib.rs:127-136 | searching "Rust:\nsafe, fast, productive.\nPick three.\nTrust me." for "rUsT" without case gives "Rust:" and "Trust me." |
| `Highlighting.MatchIndicesFromWellFormed` | src/lib.rs:27 | every reported position is an occurrence of the query at or after the start of the scan, and each starts at or after the end of the one before |
| `Highlighting.MatchIndicesWellFormed` | src/lib.rs:27 | the positions `match_indices` reports are occurrences, strictly increasing and non-overlapping |
| `Highlighting.MatchIndexAt` | src/lib.rs:27-32 | the k-th match is an occurrence that starts no earlier than where the cursor stands after the match before it |
| `Highlighting.MatchIndicesFromMaximal` | src/lib.rs:27 | the scan is leftmost-first: an occurrence it does not report starts inside a match it does report |
| `Highlighting.MatchIndicesMaximal` | src/lib.rs:27 | every occurrence of the query in the line is reported or overlaps a reported match |
| `Highlighting.MatchIndicesNonEmpty` | src/lib.rs:27 | a line gets at least one match exactly when it contains the query |
| `Highlighting.ConcatAppend` | src/lib.rs:30-34 | the printed text of two runs of pieces is the two texts joined |
| `Highlighting.CutStep` | src/lib.rs:29-32 | one turn of the loop keeps the cursor inside the line, and the pieces so far spell the line up to the cursor; the new highlighted piece is the query, starting at its match |
| `Highlighting.CutDone` | src/lib.rs:34 | printing the tail `line[last..]` after the last match completes a lossless, well-formed highlighting |
| `Highlighting.Highlight` | src/lib.rs:27-35 | the pieces alternate plain/highlighted, starting and ending plain, with one highlighted piece per match; each highlighted piece equals the query and starts at its match; joined in order, the pieces give back the line |
| `Highlighting.CaseInsensitiveLineWithoutHighlight` | src/lib.rs:16-27 | the case-insensitive search keeps "Rust:" for "rUsT", but the case-sensitive scan for the query finds no match in it, so the line is printed without highlighting |
| `Cli.Config.New` | src/lib.rs:77-107 | at most one argument gives the "Query not specified" error; two give "Filename not specified"; four or more give "Too many arguments", whatever the environment; exactly three give a config with the 2nd and 3rd arguments unchanged, case-sensitive exactly when the `CASE_INSENSITIVE` lookup failed |
| `Cli.ErrorsShowUsage` | src/lib.rs:85-101 | each error message is its reason followed by the usage `USE: ./greppy 'query' 'filename'`, which names both the query and the file name |
| `Greppy.FindLines` | src/lib.rs:16-20 | `run` uses the case-sensitive search when `case_sensitive` is set, and the case-insensitive one otherwise |
| `Greppy.HighlightsAllSnoc` | src/lib.rs:24-36 | highlighting one more line extends the output by that line's pieces |
| `Greppy.Run` | src/lib.rs:16-36 | the output has one entry per line found, in order, and each entry is the highlighting of that line for the query as typed |
| `Greppy.CaseSensitiveOutputHighlighted` | src/lib.rs:16-33 | in case-sensitive mode every printed line has at least one highlighted piece, and it equals the query |

## Left out

- Reading the file (`fs::read_to_string`, src/lib.rs:9) and its error. This is
  file I/O: `Run` takes the contents as a parameter.
- The header lines of `run`, the `print!`/`println!` calls, and the bold red
  styling from the `colored` crate (src/lib.rs:11-12, 30-35). These are terminal
  output and a foreign library. The model returns the pieces that would be
  printed, each marked as highlighted or not.
- `std::env::Args` and `env::var` (src/lib.rs:77, 104). These are the process
  environment. The arguments are a `seq<string>`. The lookup of
  `CASE_INSENSITIVE` is the boolean `envLookupOk`. `env::var` also fails when
  the value is not valid Unicode; the boolean covers that case as well.
- Unicode case mapping (`to_lowercase`, src/lib.rs:46, 49). `Lower` maps only
  `A`-`Z` to `a`-`z`, and it is applied the same way to the query and to every
  line. Unicode lowercasing can change a string's length; this is not modelled.
- UTF-8. Strings are sequences of characters, and every position is a
  character index. In Rust the positions and `len()` count bytes, and slicing
  at a position inside a multi-byte character panics. The model has no such
  positions, so it never panics.
- Borrowed slices and lifetimes (`&'a str`). The searches return the line
  values themselves, not references into the contents.
- `main` and the process exit status are not part of this model.
