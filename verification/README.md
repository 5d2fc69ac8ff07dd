# cookielog in Dafny

`cookielog` reads a CSV log of cookie visits and finds the most active cookie
of one day. A log starts with the header `cookie,timestamp`, and every further
line is `<cookie>,<YYYY-MM-DDTHH:MM:SS±HH:MM>`. Given a target date
`YYYY-MM-DD`, the command-line entry point does four things in order:

1. It checks the date (`validate_date`).
2. It checks the file: the path, the header, and the timestamp of the first row (`validate_file`).
3. It collects the cookies of the rows dated on the target day (`get_date_cookies`).
4. It prints every cookie that occurs most often among them, in first-occurrence order (`find_most_active_cookie`).

The repository holds two copies of the program. `setup.py` installs
`cookielog.py` as the module behind the `cookielog` command (setup.py:18-21).
Its date check also asks `strptime` whether the date names a real day, and its
`cli` catches both `ValueError` and `RuntimeError` and reports them on stderr.
`cookielog/__main__.py` runs when that file is executed. It checks only the
shape of the date, raises `RuntimeError` for every refusal of the checks, and
reports on stdout.

The model has these modules:

- `Seqs`: positions in sequences and duplicate-freedom.
- `Results`: the exceptions the program raises, a value-or-exception `Result`, and a run's `Outcome`:
  - `Emitted` means the cookies were printed;
  - `Reported` means an exception was caught, written to a channel, and the program exited with status 0;
  - `Crashed` means an exception escaped.
- `Text`: Python's `str.split`, `str.rstrip('\n')` and the line splitting of `readline` / `for row in file`, where each line keeps its `'\n'`.
- `Digits`, `Calendar`, `Timestamps`: the two fixed regular expressions and the fixed-width part of `strptime` that the program relies on.
- `Frequency`: reference definitions for counting, for dict insertion order and for argmax.
- `CookieLog`: `cookielog.py`. It holds the functions the program is made of, the loops of `get_date_cookies` and `find_most_active_cookie` as methods, and `cli` as the composition of the four steps.
- `CookieLogMain`: `cookielog/__main__.py`. It defines that file's `validate_date` and `cli`. Its `validate_file`, `get_date_cookies` and `find_most_active_cookie` are the same code as in `cookielog.py` (`print(cookie)` writes the same line as `sys.stdout.write(f'{cookie}\n')`), so they are taken from `CookieLog`.

The file system is the `FsEntry` parameter: a missing path, something that is
not a regular file, a regular file that `open` refuses, or a regular file with
its text. The date and the file contents are plain parameters.

Some consequences of the code that a reader might not expect:

- A file with the header and no data rows does not give an empty answer.
  `validate_file` evaluates `''.split(',')[1]`, which raises `IndexError`.
  `cli` catches only `ValueError` and `RuntimeError`, so the run crashes (`CookieLog.HeaderOnlyFileCrashes`).
  The same holds for a second line without a comma.
- `validate_file` checks only the first data row, and only for a `+` offset. `get_date_cookies` accepts both signs.
- A refused run exits with status 0: `cli` calls `sys.exit(0)` after reporting the error (`CookieLog.RefusedRunExitsWithZero`).
- Not every exception of the checks is caught. The `IndexError` above and the `OSError` of a file `open` refuses end the run with status 1 (`CookieLog.IndexErrorCrashes`, `CookieLog.UnreadableFileCrashes`).

## Model

| member | source | states |
|---|---|---|
| CookieLog.ValidateDate | cookielog.py:16-18 | a date that is not 10 characters long is refused with the format `ValueError`; every refusal is a `ValueError` |
| CookieLog.ValidateDateAcceptsExactlyIsoDates | cookielog.py:12-22 | the date check passes exactly the strings that are the ISO text `YYYY-MM-DD` of a real day from 0001-01-01 to 9999-12-31 |
| CookieLog.TestSuiteDates | cookielog.py:16-22 | `17-01-08` is refused for its shape, `2017-01-80` for naming no day, and `2017-01-01` passes |
| Timestamps.ParseIsoDate | cookielog.py:19-22 | a date `strptime('%Y-%m-%d')` returns is a day `datetime.date` can represent: year 1 to 9999, month 1 to 12, and a day within that month |
| Timestamps.ParseIsoDateExactly | cookielog.py:19-22 | `strptime('%Y-%m-%d')` on a well-shaped date succeeds exactly when the text is some valid day's ISO form, and that day prints back as the same text |
| Timestamps.ParseOfFormatDate | cookielog.py:19-22 | parsing the ISO text of a valid day gives that day back |
| Calendar.YearLength | cookielog.py:19-22 | the month lengths the day check allows add up to the Gregorian year: 366 days in a leap year, 365 otherwise |
| Calendar.LeapDayExists | cookielog.py:19-22 | February 29 is a day exactly in leap years |
| CookieLog.HeaderFieldsExact | cookielog.py:31-33 | comparing the split first line with `['cookie', 'timestamp\n']` accepts exactly the line `cookie,timestamp\n` |
| CookieLog.ValidateLines | cookielog.py:30-39 | the file check passes only a header of the expected fields followed by a second line; it raises `IndexError` exactly when that header is followed by nothing or by a line without a comma; every other refusal is the format `RuntimeError` |
| CookieLog.ValidateFile | cookielog.py:25-41 | a missing path or a directory is refused with `RuntimeError`; a regular file `open` refuses raises `OSError`; a regular file that does not start with `cookie,timestamp\n` is refused with the format `RuntimeError`; a file that passes starts with the header |
| CookieLog.ValidateLinesAfterHeader | cookielog.py:34-39 | after the header, the verdict depends only on the second field of the second line: it must be 26 characters and have the `+`-offset timestamp shape |
| CookieLog.FirstRowCheck | cookielog.py:34-39 | a header and a row `cookie,<timestamp>\n` pass exactly when the timestamp has a `+` offset; a `-` offset is refused with `RuntimeError` |
| CookieLog.UnterminatedFirstRowRejected | cookielog.py:34-39 | a first row at the end of the file without its `'\n'` is refused, because its timestamp field is 25 characters long |
| CookieLog.HeaderOnlyFileFailsCheck | cookielog.py:31-34 | the file check on a file holding only the header raises `IndexError` |
| Timestamps.ParseTimestamp | cookielog.py:53 | a timestamp that parses has the fixed shape and valid hour, minute, second and offset fields |
| Timestamps.ParseOfFormatTimestamp | cookielog.py:53 | parsing the text of a valid timestamp gives that timestamp back |
| Timestamps.FormatOfParseTimestamp | cookielog.py:53 | a text that parses is exactly the text of the timestamp it parses to |
| Timestamps.FieldsOfParseTimestamp | cookielog.py:53-54 | each field of a parsed timestamp is read from its fixed position; the date compared with the target is the text's own first ten characters, with no shift to UTC |
| CookieLog.ParseRow | cookielog.py:52-53 | a row fails with the unpacking `ValueError` exactly when it does not split into two fields, and otherwise only for a timestamp `strptime` refuses; a parsed row has a comma-free cookie and a valid timestamp |
| CookieLog.ParseOfFormatRow | cookielog.py:52-53 | the line written for a row parses back to that row |
| CookieLog.FormatOfParseRow | cookielog.py:52-53 | a line that parses starts with the text of its row and has only `'\n'` after it |
| CookieLog.Collect | cookielog.py:51-56 | a successful pass returns at most one cookie per row; a failed pass fails with the exception of one of its rows |
| CookieLog.CollectSucceedsIffAllRowsParse | cookielog.py:51-56 | the pass succeeds exactly when every row parses |
| CookieLog.CollectFailsOnFirstBadRow | cookielog.py:51-56 | a failed pass fails with the exception of the first row that did not parse |
| CookieLog.CollectIsTheTargetDaysCookies | cookielog.py:51-56 | a cookie is returned exactly when some row dated on the target day carries it |
| CookieLog.CollectFailureSticks | cookielog.py:51-56 | once a row has failed, the rows after it do not change the outcome |
| CookieLog.CollectOfOne | cookielog.py:51-55 | one row adds its cookie when it is dated on the target day, nothing when it is not, and its exception ends the pass |
| CookieLog.CollectAppend | cookielog.py:51-55 | over two runs of rows, the cookies of the second follow those of the first; a failing second run ends the pass with its exception |
| CookieLog.CountIsRowsWith | cookielog.py:51-56 | each cookie occurs in the result as often as there are rows of the target day carrying it |
| CookieLog.DateCookies | cookielog.py:44-56 | the extraction fails only with the unpacking or the timestamp `ValueError` |
| CookieLog.DateCookiesSpec | cookielog.py:44-56 | the extraction succeeds exactly when every line after the first parses; it then returns exactly the cookies of lines dated on the target day; the header never contributes |
| CookieLog.CollectPrefix | cookielog.py:51-55 | when the pass over two runs of rows succeeds, the pass over the first run succeeds too and its cookies start the result |
| CookieLog.DateCookiesInFileOrder | cookielog.py:48-56 | the cookies collected from the first lines of the file are the start of those collected from the whole file, so they come in file order |
| CookieLog.GetDateCookies | cookielog.py:48-56 | the loop, which stops at the first row that raises, computes the extraction |
| Frequency.DistinctHasSameElements | cookielog.py:64-69 | the dict's keys are exactly the values counted |
| Frequency.DistinctInFirstOccurrenceOrder | cookielog.py:64-71 | `freq.items()` lists the keys in the order of their first occurrences |
| Frequency.TallyCounts | cookielog.py:64-69 | the dict maps exactly the counted cookies, each to its number of occurrences |
| Frequency.TallySum | cookielog.py:64-69 | the counts add up to the number of cookies |
| Frequency.HighestIsMaximum | cookielog.py:70 | `max(freq.values())` bounds every cookie's count and is the count of some cookie |
| Frequency.MaxCountIsMaximum | cookielog.py:70 | the maximum over the keys bounds each key's count and is attained by a key |
| Frequency.WithCountSelects | cookielog.py:71-73 | the selection holds exactly the keys whose count is the given one |
| Frequency.WithCountKeepsOrder | cookielog.py:71-73 | the selection keeps the key order |
| Frequency.MostActiveIsArgmax | cookielog.py:59-73 | nothing is printed exactly when there are no cookies; otherwise the cookies with the highest count, and only those, are printed |
| Frequency.MostActiveInFirstOccurrenceOrder | cookielog.py:64-73 | the printed cookies appear once each, in the order of their first occurrences |
| Frequency.StrictMajorityIsTheAnswer | cookielog.py:59-73 | a cookie that makes up more than half of the list is the only one printed |
| CookieLog.TallyCookies | cookielog.py:64-69 | the counting loop builds the count table and its key order |
| CookieLog.HighestCount | cookielog.py:70 | the scan of the dict's values finds the highest count |
| CookieLog.CookiesWithCount | cookielog.py:71-73 | the output loop emits the keys with the highest count in key order |
| CookieLog.FindMostActiveCookie | cookielog.py:59-73 | the whole reduction: output exactly when there is input, the most frequent cookies and only them, without duplicates, in first-occurrence order |
| CookieLog.Cli | cookielog.py:76-94 | a report goes to stderr and carries the caught exception of the checks; a refused date is always reported; a crash is the `IndexError` or `OSError` of the file check or a `ValueError` of a row; cookies are printed only when both checks passed |
| CookieLog.CliAfterChecks | cookielog.py:92-94 | after the checks, the run is the pass over the target day's rows, then the reduction |
| CookieLog.MostActiveOfCollect | cookielog.py:92-94 | the printed cookies are, once each, exactly the cookies with the most rows on the target day |
| CookieLog.CollectAroundRow | cookielog.py:51-55 | in a successful pass the cookies of the rows before row `k` are the start of the result, and when row `k` is dated on the target day its cookie comes right after them |
| CookieLog.EarlierCookieHasEarlierRow | cookielog.py:51-55 | a cookie that first occurs earlier in the collected list has a target-day row before every target-day row of the later one |
| CookieLog.MostActiveInFirstRowOrder | cookielog.py:64-73 | the printed cookies come in the order of their first rows on the target day |
| CookieLog.CliPrintsMostActiveCookies | cookielog.py:76-94 | a run prints cookies exactly when both checks pass and every data row parses; it then prints each cookie with the most rows of the target day, once, and no other, in the order of their first rows on that day |
| CookieLog.RefusedRunExitsWithZero | cookielog.py:86-91 | every refusal of the checks other than `IndexError` and `OSError` is reported and ends with exit status 0 |
| CookieLog.DateRefusalIgnoresFile | cookielog.py:83-85 | when the date is refused, the run does not depend on what is at the path |
| CookieLog.UnreadableFileCrashes | cookielog.py:83-91 | with a date that passes, a regular file `open` refuses ends the run with an uncaught `OSError` and exit status 1 |
| CookieLog.HeaderOnlyRunRefused | cookielog.py:83-85 | with a date that passes, the checks of a header-only file end in `IndexError` |
| CookieLog.IndexErrorCrashes | cookielog.py:83-91 | the `IndexError` of the checks escapes `cli` |
| CookieLog.HeaderOnlyFileCrashes | cookielog.py:76-94 | with any date that passes its check, a header-only file crashes the run instead of printing nothing |
| CookieLogMain.ValidateDate | cookielog/__main__.py:9-12 | every refusal is the format `RuntimeError`; a date that is not 10 characters long is refused |
| CookieLogMain.ValidateDateIsTheShapeCheck | cookielog/__main__.py:9-12 | this check refuses exactly the dates `cookielog.py` refuses for their shape, and it passes every date that `cookielog.py` passes |
| CookieLogMain.FebruaryThirtiethPassesShapeCheck | cookielog/__main__.py:9-12 | `2021-02-30` passes this check, while `cookielog.py` refuses it as naming no day |
| CookieLogMain.Cli | cookielog/__main__.py:57-69 | a report goes to stdout and carries a `RuntimeError` of the checks; a crash is the `IndexError` or `OSError` of the file check, the `ValueError` of `strptime` on the date, or a `ValueError` of a row; cookies are printed only when the date names a real day and the file check passed |
| CookieLogMain.CliAgreesOnRealDates | cookielog/__main__.py:57-69 | on a date that names a day, both programs do the same, except that this one reports on stdout |
| CookieLogMain.EmittedCookiesAgree | cookielog/__main__.py:57-69 | whatever this program prints as its answer, `cookielog.py` prints the same |
| CookieLogMain.ImpossibleDateCrashes | cookielog/__main__.py:61-67 | take a well-shaped date that names no day and a file that passes the check: this program dies of `strptime`'s `ValueError` with exit status 1, while `cookielog.py` reports the error on stderr |
| CookieLogMain.DateRefusalIgnoresFile | cookielog/__main__.py:61-63 | when the date is refused, the run does not depend on what is at the path |
| CookieLogMain.UnreadableFileCrashes | cookielog/__main__.py:61-66 | a regular file `open` refuses ends this run with an uncaught `OSError` too |
| CookieLogMain.IndexErrorCrashes | cookielog/__main__.py:61-66 | the `IndexError` of the file check escapes this `cli` as well |
| CookieLogMain.HeaderOnlyFileCrashes | cookielog/__main__.py:57-69 | a header-only file crashes this program too |
| Text.Split | cookielog.py:32-34 | `s.split(',')` gives at least one field, more than one exactly when `s` holds a comma, and joining the fields with commas gives `s` back |
| Text.SplitFieldsHaveNoSeparator | cookielog.py:32 | no field of `split(',')` holds a comma |
| Text.SplitOfJoin | cookielog.py:32 | splitting the comma-joined fields gives the fields back when none holds a comma |
| Text.Lines | cookielog.py:49-51 | the lines `readline` and `for row in file` produce concatenate to the text; each is non-empty, has `'\n'` at most at its end, and every line but the last ends in `'\n'` |
| Text.RStripNewlines | cookielog.py:53 | `rstrip('\n')` keeps a prefix of the text that does not end in `'\n'`, and what it cuts away is only `'\n'` |
| Text.LinesOfConcat | cookielog.py:49-51 | reading a text made of lines gives those lines back |

## Left out

- `click` option parsing, the wording of the messages, and the bytes written to stdout and stderr. A run's result is an `Outcome`: the printed cookies, the caught exception and its channel, or the escaped exception.
- `os.path.exists`, `os.path.isfile` and `open`. They become the `FsEntry` parameter; a file `open` refuses is one case, with no distinction between the kinds of `OSError`. Two things are not modelled:
  - the text decoding of the file;
  - the newline translation of text mode, which turns `'\r\n'` and a lone `'\r'` into `'\n'`.

  The text is assumed to arrive already decoded and translated.
- The same file is opened twice, once by `validate_file` and once by `get_date_cookies`. The model reads one text for both, so it assumes the file does not change between the two reads.
- Timestamps.ParseTimestamp: accepts only 25-character texts `DDDD-DD-DDTDD:DD:DD±DD:DD` with ASCII digits and an upper-case `T`. `strptime('%Y-%m-%dT%H:%M:%S%z')` accepts more, and the model reports each of these as unparseable:
  - a lower-case `t`, because `strptime` matches its pattern ignoring case (`2018-12-09t14:19:00+00:00`);
  - a day padded with a space instead of a zero (`2018-12- 9T14:19:00+00:00`);
  - a single-digit month, day, hour, minute or second;
  - non-ASCII digits;
  - a `Z` offset, an offset without a colon, or an offset with seconds or microseconds.

  The regular expression of `validate_file` (cookielog.py:35-37) is case-sensitive and requires two digits in every field. So these forms are refused in the first data row and make a difference only in later rows. The colon form of `%z` assumes Python 3.7 or later.
- Timestamps.ParseIsoDate: models `strptime('%Y-%m-%d')` only on the 10-character `DDDD-DD-DD` strings that reach it, which is the only way both programs call it.
- `setup.py` is packaging metadata. `test/test_cookielog.py` reads a data file that is not part of this model; its date cases are `CookieLog.TestSuiteDates`.

## Findings

| source | as written | input that shows it | evidently intended | confidence | as-written member | corrected member |
|---|---|---|---|---|---|---|
| cookielog/__main__.py:9-12 | `validate_date` checks only the shape, so `cli` later calls `strptime` on the date at line 67, outside its `try`. That raises a `ValueError` nothing catches. | `--date 2021-02-30` with a log file that passes its check (`CookieLogMain.FebruaryThirtiethPassesShapeCheck`) | refuse a date that names no day inside the checks and report it, as `cookielog.py:19-22` and `cookielog.py:89-91` do | high; not executed | CookieLogMain.ImpossibleDateCrashes | CookieLog.ValidateDateAcceptsExactlyIsoDates |
