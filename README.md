# Dependent downloads, modelled in Dafny

`dependent_downloads.py` builds a CSV of the PyPI packages that depend on a
given package, with each dependent's downloads over the last month. It works
in two phases.

1. If there is no output file yet, it checks for a libraries.io API key. It
   asks libraries.io how many dependents there are and fetches them 100 per
   page. It deduplicates them by name and ranks them by descending GitHub
   stars. Then it writes a checkpoint file: a `pkg_name,downloads` header,
   then one `name,` line per dependent.
2. It reads the checkpoint back. For every row whose downloads column is
   empty, it asks pypistats.org, in table order. A count is stored as is. A
   404 stores `NA` and moves on. Any other error stops the loop. In every case
   the `finally` block writes the whole table back to the file, so an
   interrupted run (for example on `429 Too Many Requests`) can be resumed.

This project models that core on values only. The model performs no I/O; the
web services are oracles passed in as parameters:
- `dependentsCount` is the `dependents_count` answer.
- `fetchPage(p)` is the list of (name, stars) entries of page `p`.
- `fetch(name)` is the outcome of the statistics request for `name`.

The API key is an `Option<string>` parameter. The checkpoint file is its text:
`None` when it does not exist. What a run makes visible is a `RunResult`:
- the file text afterwards,
- the requests issued, in order,
- whether the run passed or with which error it failed.

Modules follow the program's structure:

- `Wrappers`: `Option`, `Result` and `Outcome`.
- `OrderedMap`: Python's insertion-ordered `dict` as a sequence of pairs:
  - `Put` is `d[k] = v`;
  - `FromPairs` is `dict(pairs)` and `{k: v for ...}`.
- `Text`: the string built-ins the file format relies on:
  - `str.isspace` with its full Unicode set, `strip()` and `split(",")`;
  - iteration over the lines of a text file;
  - `str(n)` for a non-negative `int`.
- `Web`: the requests the program issues and the outcomes of a download look-up.
- `Dependents`: `get_all_dependents` (lines 9–56):
  - the pre-flight key check and the page count;
  - the page loop, as a `while` loop;
  - deduplication, and the stable sort by descending stars as an insertion sort.
- `Checkpoint`: the CSV format:
  - rows, writing as a `for` loop, and parsing;
  - the round trip between the two.
- `Orchestrator`: `main` (lines 79–129):
  - the resolution loop, as a `while` loop over the table, proved equal to the
    recursive function `Resolution`;
  - the whole run, as the method `Run`, proved equal to the function `Execution`;
  - lemmas about interrupted runs and re-runs.

The downloads column is a `Field`:
- `Unresolved` is the empty text.
- `NotAvailable` is `NA`.
- `Count(n)` is decimal text as Python writes an `int`.
- `Verbatim(t)` is any other text.

Python only ever asks whether the column is empty. A `Verbatim` column counts
as done and is written back unchanged, as the code does.

The header line is not checked: `next(f)` drops the first line whatever it
holds, so only a file with no line at all fails to parse (`EmptyFile`, the
`StopIteration` of `next`).

## Model

| member | source | states |
|---|---|---|
| Dependents.GetAllDependents | dependent_downloads.py:32-56 | Without an API key, or with an empty one, the result is `MissingApiKey` and no request is issued. With a key, the requests are the metadata request, then pages 1 to `NumPages(dependents_count)` in increasing order. The result is the ranking of all page entries. |
| Dependents.NumPages | dependent_downloads.py:29-37 | `dependents_count // 100 + 1`. For a count of zero or more there is at least one page, and the pages cover the count: `(n-1)*100 <= count < n*100`. The last page lies wholly past the count exactly when the count is a multiple of 100. A negative count gives no page. |
| Dependents.PageNumbers | dependent_downloads.py:40 | Definition: `range(1, num_pages + 1)`, `max(n, 0)` pages, numbered 1 upwards in order. |
| Dependents.FetchPages | dependent_downloads.py:39-49 | The page loop requests exactly pages 1..n, in order. Its results are the concatenation of the pages' answers in that order. |
| Dependents.SortByStars | dependent_downloads.py:55 | `sorted(..., key=-stars)` returns a permutation (same multiset) whose stars never increase. |
| Dependents.SortStable | dependent_downloads.py:55 | The sort is stable: entries with equal stars keep their relative input order. |
| Dependents.RankNamesExactlyOnce | dependent_downloads.py:52-56 | A name is in the ranked list if and only if some page entry has it, and no name appears twice. |
| Dependents.RankOrdered | dependent_downloads.py:52-55 | Along the ranked list the stars of each name's last entry never increase. Names with equal stars appear in the order of their first entry. |
| OrderedMap.Put | dependent_downloads.py:52 | `d[k] = v` keeps an existing key at its position and appends a new key at the end. It leaves every other pair as it was, stores `(k, v)` under `k`, and keeps keys distinct. |
| OrderedMap.FromPairs | dependent_downloads.py:52 | `dict(pairs)` has distinct keys, and exactly the keys of the pairs. |
| OrderedMap.FromPairsLastValue | dependent_downloads.py:52 | Each key of `dict(pairs)` holds the value of the last pair with that key. |
| OrderedMap.FromPairsFirstSeen | dependent_downloads.py:52 | The keys of `dict(pairs)` are in the order of their first occurrence in the pairs. |
| OrderedMap.FromPairsOfDistinct | dependent_downloads.py:101 | On pairs whose keys are already distinct, `dict(pairs)` is the pairs themselves, order included. |
| Text.TrimLeft | dependent_downloads.py:101 | `lstrip()` drops all leading whitespace and only leading whitespace. It returns a suffix of the input that is empty or starts with a non-space. |
| Text.TrimRight | dependent_downloads.py:101 | `rstrip()` drops all trailing whitespace and only trailing whitespace. It returns a prefix of the input that is empty or ends with a non-space. |
| Text.Split | dependent_downloads.py:101 | `split(",")` always yields at least one field, and no field contains the separator. |
| Text.SplitThenJoin | dependent_downloads.py:101 | `split` loses nothing: joining its fields with the separator gives back the string. |
| Text.SplitAtSeparator | dependent_downloads.py:101 | The text before the first separator is the first field, and the rest is split independently. |
| Text.Lines | dependent_downloads.py:99-101 | The lines a text file yields contain no line break, and an empty file yields no line. Joining the lines with line breaks gives back the text, with one final line break more when the text ends in one. |
| Text.NatToDecimal | dependent_downloads.py:129 | `str(n)` is canonical decimal text: digits only, with a leading `0` exactly when `n` is 0. |
| Text.DecimalOfNat | dependent_downloads.py:129 | Reading back the decimal text of `n` gives `n`. |
| Text.NatOfDecimal | dependent_downloads.py:129 | Every canonical decimal text is the text written for its value. |
| Checkpoint.FieldTextOfParse | dependent_downloads.py:126-129 | Whatever text a downloads column holds, reading it and writing it again reproduces it. |
| Checkpoint.FieldRoundTrip | dependent_downloads.py:94-101 | A field written out and read back is the same field: empty stays `Unresolved`, `NA` stays `NotAvailable`, and an int comes back as its value. |
| Checkpoint.InitialRows | dependent_downloads.py:96-97 | The first table has the ranked names as its keys, in ranked order, every field empty. |
| Checkpoint.WriteCheckpoint | dependent_downloads.py:126-129 | The write loop (the same shape at lines 94-97 for the first write) produces the header line and then one `name,value` line per row in table order, each ending in a line break. |
| Checkpoint.ParsePairs | dependent_downloads.py:101 | Reading succeeds exactly when every data line splits into two fields, and then gives each line's (name, column) pair in order. Otherwise it fails at the first line that does not, reporting that line's field count. |
| Checkpoint.ParseFields | dependent_downloads.py:101 | Definition: each row keeps its name and position and reads its column as a field. |
| Checkpoint.Parse | dependent_downloads.py:99-101 | An empty file, and only an empty file, fails for lack of a first line. Otherwise reading succeeds exactly when every line after the first splits into two fields. A table that was read has distinct names. |
| Checkpoint.ParseTable | dependent_downloads.py:99-101 | Which table a readable file gives: its names are exactly the names of the lines after the first, each once, in the order of their first line. Each name's field is the column on the last line with that name, read as a field. |
| Checkpoint.ParseWellFormed | dependent_downloads.py:99-101 | Any table read from a file without `\r` has distinct names without comma, line break or leading whitespace, and fields that survive a line, so it can be written and read back. |
| Checkpoint.ParseSerialise | dependent_downloads.py:94-101 | Reading back the text written for a table gives the same table, rows in order and fields unchanged. This holds when names are distinct and hold no comma, line break or leading whitespace, and when columns such as `Verbatim` text survive a line. |
| Orchestrator.Settle | dependent_downloads.py:106-114 | Definition: a successful look-up stores its count, and a 404 stores `NA`. Either way the row is no longer empty. |
| Orchestrator.StopIndex | dependent_downloads.py:104-120 | The loop stops at the first row that is empty and whose look-up fails other than with a 404, or at the end of the table when there is no such row. |
| Orchestrator.ResolveDownloads | dependent_downloads.py:103-120 | The in-place loop over the table leaves exactly the table, the look-ups and the error given by the recursive definition `Resolution`. |
| Orchestrator.ResolutionByIndex | dependent_downloads.py:104-120 | With `k` the stopping row: the rows before `k` are filled in and the rows from `k` on are unchanged, so every later entry is untouched. The error is that of row `k` when there is one. The look-ups are the empty rows' names up to and including row `k`, in order. |
| Orchestrator.ResolutionOnlyFillsUnresolved | dependent_downloads.py:104-114 | The loop never adds, removes or reorders names, and never touches a row that was already set. A row it changes was empty, and now holds the count or `NA` from its own look-up. |
| Orchestrator.ResolutionIdleOnResolved | dependent_downloads.py:104-105 | On a table with no empty row the loop looks nothing up and changes nothing. |
| Orchestrator.ResolutionCompleteOnSuccess | dependent_downloads.py:104-124 | When no fatal error occurs, every row is filled, no row is left empty, and every empty row was looked up once, in table order. |
| Orchestrator.ResolutionKeepsWellFormed | dependent_downloads.py:104-114 | The table the loop leaves can still be written and read back. |
| Orchestrator.DownloadRequests | dependent_downloads.py:74 | Definition: one statistics request per looked-up name, in look-up order. |
| Orchestrator.Run | dependent_downloads.py:91-129 | `main` produces exactly the file, requests and outcome given by `Execution`. The first write happens only when there is no checkpoint, and only after the key check. An unreadable checkpoint fails before any look-up and is not rewritten. Otherwise the resolved table is written back on every exit path before the error is reported. |
| Orchestrator.CheckpointSurvivesFailure | dependent_downloads.py:121-129 | From any readable checkpoint text without `\r`, existing or written by the first run, and whether or not a look-up failed, the file afterwards reads back as the table the loop left. Nothing resolved before the error is lost, and the requests are exactly the loop's look-ups, after the metadata and page requests of a first run. The run passes, the "All done!" path, exactly when the loop was not stopped by an error. |
| Orchestrator.ResolvedCheckpointUntouched | dependent_downloads.py:99-129 | A checkpoint in the form the program writes (`Serialise(t)` for a well-formed table `t`) whose rows are all set is rewritten byte for byte, with no request, and the run passes. Any other text is rewritten in that form instead: the header becomes `pkg_name,downloads`, lines are stripped and end in a line break, and repeated names are merged. |
| Orchestrator.RerunIsIdle | dependent_downloads.py:91-129 | From any readable checkpoint text without `\r`, existing or written by the first run: when the loop meets no error the run passes, and a second run issues no request and leaves the file exactly as the first run wrote it. |
| Orchestrator.FirstRunFollowsRanking | dependent_downloads.py:91-101 | The first run, with a key and no checkpoint, when no ranked name holds a comma, a line break, `\r` or leading white space: it requests metadata and pages first, then looks up the ranked names in ranked order, starting from a table of ranked names with empty fields. |

## Left out

- HTTP calls (libraries.io metadata and pages, pypistats.org) are oracles. Their JSON decoding is outside the model. Each page is given as the list of entries it decodes to, and each download look-up as a `FetchOutcome`.
- Failures of the metadata request and of the page requests are not modelled: JSON errors, missing keys, transport errors. The model assumes those requests return data.
- The target package name appears only inside URLs, so it is folded into the oracles.
- `os.getenv` is replaced by the `apiKey` parameter.
- File existence, opening and closing are replaced by the checkpoint text as an `Option<string>`.
- A failure of the file write itself is not modelled.
- `print` progress output and "All done!" are left out. The run's `Pass` outcome marks the path on which "All done!" is printed.
- The `argparse` command line is left out.
- Text mode's universal newlines are only partly modelled. A `\r\n` file is read as Python reads it: `Lines` cuts at the `\n`, and `strip()` removes the `\r` before it. A lone `\r` is not read as a line break. This does not affect `ParseSerialise`, because well-formed names and fields contain no `\r`.
- ParseWellFormed: stated for checkpoint text without `\r`, because the model does not read a lone `\r` as a line break as text mode does; `\r\n` files are not covered by this lemma although they parse as in Python.
- CheckpointSurvivesFailure: stated for checkpoint text without `\r`, for the same reason.
- RerunIsIdle: stated for checkpoint text without `\r`, for the same reason.
- UTF-8 encoding and decoding of the file are not modelled: text is a sequence of characters.
- Download counts are natural numbers. The API's `last_month` is taken to be a non-negative integer.
- Star counts are unbounded integers with no width.
- Python's exception objects are replaced by the error datatypes `ConfigError`, `ParseError` and `RunError`. `WrongFieldCount` reports the 0-based data line, as `dict` reports the index of the bad element.
- The metadata answer is the `dependentsCount` parameter. The metadata request is recorded in the request list, but its answer is not tied to it.
