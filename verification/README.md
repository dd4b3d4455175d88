# ILRS_TLE retrieval, modelled in Dafny

`get_ILRS_TLE.py` fetches the latest orbital elements (three-line TLE
records) of the satellites that the International Laser Ranging Service
currently tracks. It reads the catalog numbers out of the ILRS mission
table, logs in to space-track.org, builds one bulk query per satellite list
and saves each response, with carriage returns removed, to `<list>.txt`.

This project models the deterministic core of the `SatelliteRetriever`
class as pure Dafny functions and proves what they promise. The network,
the clock and the file system are inputs and outputs:

- the mission table arrives as its data rows, each the sequence of its
  cells' texts (`None` for a cell without text);
- a login attempt is answered by a `LoginResponse`: an `HTTPError`, a
  `URLError` or the decoded body;
- the `k`-th list's query is answered by the `k`-th `FetchResponse`: a body,
  an `HTTPError` (caught, the call returns False) or a `URLError` (not caught
  in `download_data`, so it propagates);
- time is whole seconds counted from 1900-01-01 00:00:00, the initial
  `last_login`;
- files are a map from file name to content, and a write overwrites.

Modules, one per concern of the script:

| module | file | models |
|---|---|---|
| `Wrappers` | wrappers.dfy | `Option` / `Result` for `None` cells and exceptions |
| `Text` | text.dfy | `str.strip()`, `sub in s`, `sep.join`, `s.split(sep)` |
| `Numerals` | numerals.dfy | `str(int)` and `int(text)` |
| `Sorting` | sorting.dfy | `sorted()` on integers |
| `SatLists` | satlists.dfy | the insertion-ordered `lists` dictionary |
| `Catalog` | catalog.dfy | `get_ILRS_numbers` |
| `Query` | query.dfy | the query URL and the output file name |
| `Session` | session.dfy | `log_in`, `last_login` and the expiry check |
| `Download` | download.dfy | `download_data` |

The model follows the code as written:

- The catalog numbers are sorted but not deduplicated: a number listed
  twice in the table is requested twice.
- A list with no identifiers is not skipped. It is requested with an empty
  segment after `NORAD_CAT_ID/`, and its response is saved.
- Lists are visited in dictionary insertion order, and the first failed
  fetch ends the call.
- The identifiers are integer literals as `int()` reads them, so a sign is
  allowed. They are not checked to be positive.
- The expiry check compares `timedelta.seconds` with 5400. That is the
  seconds within the last day of the elapsed time, `elapsed mod 86400`, not
  the whole elapsed time. A login made one day and one minute ago
  therefore counts as fresh (`Session.StaleByDaysNotRenewed`).
- A `URLError` raised by a list's query is not caught in `download_data`. The
  model ends the call with `RaisedUrlError`, and nothing more is written.

## Model

| member | source | states |
|---|---|---|
| Text.Strip | get_ILRS_TLE.py:34 | the stripped ID is a slice of the cell text with only whitespace around it, and it neither starts nor ends with whitespace (Python's `str.isspace` set) |
| Text.ContainsIff | get_ILRS_TLE.py:59 | the `"Failed" in result` test holds exactly when the marker occurs at some position of the body |
| Text.SplitJoin | get_ILRS_TLE.py:85 | splitting a `",".join` of one or more comma-free pieces on `','` gives back exactly those pieces |
| Numerals.ParseRender | get_ILRS_TLE.py:85 | `int(str(i)) == i` for every integer, so the rendered IDs read back as the stored IDs |
| Numerals.RenderInjective | get_ILRS_TLE.py:85 | different IDs are rendered as different text |
| Sorting.Sort | get_ILRS_TLE.py:38-39 | `sorted(numbers)` is ascending, has the same length and is a permutation of its input, with duplicates kept |
| Sorting.SortedUnique | get_ILRS_TLE.py:38-39 | two ascending sequences with the same elements (as a multiset) are equal, so the sorted list is the only ascending arrangement |
| Sorting.SortPermutationInvariant | get_ILRS_TLE.py:38-39 | sorting ignores the order in which the table lists the numbers, and sorting twice is sorting once |
| SatLists.Put | get_ILRS_TLE.py:38 | storing a key keeps the keys distinct and makes the key map to the new numbers. No other key's value changes. An existing key keeps its place, and a new key goes last in iteration order |
| Catalog.ReadRow | get_ILRS_TLE.py:33-37 | a row raises IndexError iff it has no fourth cell, AttributeError iff that cell has no text, and is skipped iff its stripped text is `""` or `"N/A"`, and otherwise contributes exactly the integer its stripped text reads as, or raises ValueError iff that text is not an integer literal |
| Catalog.CollectIds | get_ILRS_TLE.py:32-37 | the loop succeeds iff no row raises, and a failing loop reports the exception of the first row that raises |
| Catalog.CollectedCounts | get_ILRS_TLE.py:32-37 | each integer is collected exactly as many times as there are rows that read as it, so only placeholder rows are dropped and nothing is deduplicated |
| Catalog.GetIlrsNumbers | get_ILRS_TLE.py:22-39 | the call returns the collected numbers ascending, as a permutation, and stores that same list under `"ILRS_active"` with every other list left as it was. That key keeps its place in iteration order if present and is appended otherwise. An exception leaves `lists` unchanged |
| Catalog.ReturnedIsSortedRows | get_ILRS_TLE.py:31-39 | any ascending list holding each number once per row that names it is exactly what the call returns |
| Query.QueryShape | get_ILRS_TLE.py:82-87 | the URL is `https://www.space-track.org/basicspacedata/query/class/tle_latest/ORDINAL/1/NORAD_CAT_ID/`, then the comma-joined IDs, then `/format/3le` |
| Query.SegmentRoundTrip | get_ILRS_TLE.py:85 | for a non-empty list, splitting the ID segment on `','` and reading each piece gives the IDs in stored order |
| Query.EmptyListQuery | get_ILRS_TLE.py:80-87 | an empty list still gets a URL, with nothing between `NORAD_CAT_ID/` and `/format/3le` |
| Query.QueryInjective | get_ILRS_TLE.py:82-87 | two ID sequences with the same URL are equal, order included |
| Query.FileNameInjective | get_ILRS_TLE.py:81 | different list names are saved to different files |
| Session.LogIn | get_ILRS_TLE.py:48-63 | a login succeeds iff the POST raised neither HTTPError nor URLError and the body contains no occurrence of `"Failed"`; success sets `last_login` to now, failure leaves it unchanged |
| Session.WithinDaySeconds | get_ILRS_TLE.py:71-72 | `delta.seconds` is in 0..86399 and differs from the elapsed time by whole days |
| Session.ExpiryIgnoresWholeDays | get_ILRS_TLE.py:71-72 | adding or removing whole days between the last login and now never changes whether a re-login happens |
| Session.FreshAfterLogin | get_ILRS_TLE.py:62-72 | within 5400 seconds after a successful login no re-login is due, and neither is one at the same time of day any whole number of days later |
| Session.StaleByDaysNotRenewed | get_ILRS_TLE.py:71-72 | a login one day and one minute old is not renewed |
| Session.InitialSessionExpiry | get_ILRS_TLE.py:12 | while `last_login` is still 1900-01-01 00:00:00, a re-login happens exactly when the time of day is after 01:30:00 |
| Session.ExpiredWithinDay | get_ILRS_TLE.py:71-72 | a login more than 5400 seconds but less than a day old is renewed |
| Session.NoSuccessKeepsLastLogin | get_ILRS_TLE.py:49-61 | after any series of rejected or failed logins `last_login` is unchanged |
| Session.LastLoginIsLastSuccess | get_ILRS_TLE.py:59-63 | after any series of logins `last_login` is the time of the last successful one |
| Download.StripCR | get_ILRS_TLE.py:96 | the text passed to `write` contains no `'\r'` and holds every other character as often as the response does |
| Download.StripCRConcat | get_ILRS_TLE.py:96 | stripping commutes with concatenation, so the surviving characters keep their order |
| Download.StripCRFixed | get_ILRS_TLE.py:96 | a response without `'\r'` is saved unchanged |
| Download.StripCRIdempotent | get_ILRS_TLE.py:96 | stripping twice is stripping once |
| Download.StripCRExample | get_ILRS_TLE.py:96 | `"A\r\nB\r\n"` is saved as `"A\nB\n"` |
| Download.FetchLists | get_ILRS_TLE.py:79-101 | the loop returns True iff every fetch succeeded. At the first HTTPError it returns False, and at the first URLError it raises. It requests exactly the lists up to and including the failing one, in insertion order, each with its own URL |
| Download.SavedFile | get_ILRS_TLE.py:95-100 | each list before the first failed fetch has its file holding its response with carriage returns removed |
| Download.UntouchedFile | get_ILRS_TLE.py:79-100 | a file that no list before the first failed fetch maps to is neither created nor changed |
| Download.FilesWritten | get_ILRS_TLE.py:79-101 | the files afterwards are the old files plus exactly those of the lists before the first failed fetch, each holding its stripped response, and every other file unchanged |
| Download.DownloadData | get_ILRS_TLE.py:65-101 | one login attempt is made iff the within-day elapsed seconds exceed 5400. If that login fails, the call returns False, writes nothing and requests nothing. Otherwise the call is the list loop. `last_login` moves only on a successful login |
| Download.DownloadSucceedsIff | get_ILRS_TLE.py:71-101 | the call returns True iff the session was fresh or renewed and every list's fetch succeeded |
| Download.EmptyListStillFetched | get_ILRS_TLE.py:79-100 | a list with no IDs is requested with an empty ID segment, and its response is saved when the fetch succeeds |
| Download.NoReloginWithinWindow | get_ILRS_TLE.py:62-78 | after a call that renewed the session, a second call within 5400 seconds makes no login attempt |

## Left out

- Network I/O is not modelled: the opener, the cookie jar and the HTTP
  requests themselves. Their outcomes are inputs, and the cookie state is
  not represented.
- Downloading and parsing the mission page is not modelled (lines 26-30).
  That covers `urlopen`, lxml and `get_element_by_id("stations")`, the
  header row, and the exceptions they can raise. The data rows are an
  input.
- lxml's `col.text` is only the text before a cell's first child element.
  The model takes that text as given.
- Numerals.ParseInt accepts ASCII digits with an optional sign and single
  underscores between digits. Python's `int()` also accepts other Unicode
  decimal digits, and the model treats those as a ValueError.
- Decoding a response as UTF-8 is not modelled (lines 58 and 95). Bodies
  are given as decoded text, so a UnicodeDecodeError cannot occur.
- Clock resolution is simplified: times are whole seconds, while
  `datetime.now()` also has microseconds, which `timedelta.seconds`
  truncates.
- Download.DownloadData reads the clock once. The source reads it at line
  71 and again in `log_in` at line 62, and the model gives the new
  `last_login` the first reading.
- File I/O errors are not modelled: `open` and `write` are a map update
  that always succeeds.
- Download.StripCR: the model's file content is the text passed to
  `write`. The file is opened in text mode (line 97), so the platform's
  newline translation and the locale's encoding apply on the way to disk.
  On a platform whose line separator is `"\r\n"` the file on disk does
  contain carriage returns. Those steps belong to the runtime, not to the
  script.
- Numerals.ParseInt has no length limit. Python 3.11 and later raise
  ValueError when `int()` is given a decimal string of more than 4300
  digits. The model reads such a string as its integer, so a catalog cell
  that long would not abort the call in the model. The limit is a runtime
  setting, `sys.set_int_max_str_digits`.
- Debug printing and `DEBUG` levels, the `Config` import and the
  `__main__` driver are not modelled. The driver only calls the three
  modelled operations in turn.
