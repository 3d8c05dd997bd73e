# exception_reporter report engine, in Dafny

This project models the report engine of the `exception_reporter` Rails plugin:

- `ExceptionHandler::Reporter` in `lib/reporter.rb` (the newer reporter, with the `minutes_ago` time window);
- the older copy of that class in `lib/exception_handler.rb` (lines 5-134), which has no time window;
- the pieces of `ReportsExceptions` in `lib/reports_exceptions.rb` that decide whether a record is written, and where.

Capture stores one text file per rescued exception at
`<exceptions_dir>/<Class name, '::' as '_'>/<%F>/<%H>/<%Y-%m-%dT%H:%M:%S>.<time.to_i mod 1000>.txt` (lib/reports_exceptions.rb:40-56).
The reporter then works through four steps:

1. It lists the type directories of every exceptions directory.
2. It keeps the files of the report date whose embedded time is not before the report time.
3. It reads each file's header and category, and aggregates them per exception type: a count, a directory URL, and URLs grouped by category.
4. It renders an HTML page, which it returns or mails.

Everything is pure functions over immutable values:

- `now` is an integer number of seconds on the local wall clock.
- A directory listing is a sequence of names plus a sequence of `(path, lines)` record files.
- Ruby exceptions are `Err` values of `Wrappers.Result`.
- The hashes `@ex2cat2list` and `cat2list` are sequences in first-insertion order. Which order the source's hashes have is discussed under "## Left out".
- `controller_class.exceptions_dir` is one string whose lines `each` visits (lib/reporter.rb:86). The model takes the sequence of those lines as a sequence of `ExceptionsDir` values, each a path with its listing.

Modules:

- `Wrappers`: `Option`, `Result` and the error values.
- `Text`: the Ruby string operations used: `split` with and without a limit, `join`, `strip`, lexicographic `<`, and zero padding.
- `Clock`: the calendar and `strftime` for `%Y-%m-%d`, `%H`, `%H:%M:%S` and `%H:%M:00`.
- `RecordStore`: the record layout `write_exception_to_file` writes, and the type-name encoding.
- `Capture`: `saves_exceptions` and the `only` / `except` / `log_when` decision.
- `Scanner`: `matches_time?`, the `<ex>/<date>/*/*` glob, and `exception_files_for`.
- `Header`: `get_header` and `get_category`.
- `Urls`: `file_to_url`, the `:dir` URL, and link texts.
- `Aggregate`: the `process_dir` fold that builds `@ex2cat2list`.
- `Sorting`: `sort_by { … }.reverse`.
- `Render`: the `html` / `generate_html` page.
- `Reporter`: options, the report window, `process_dir`, and `run`.
- `LegacyReporter`: the older reporter, with a proof that it agrees with the newer one when `minutes_ago` is absent.

The older reporter's `get_header` and `get_category` (`lib/exception_handler.rb:68-80`) are identical, character for character, to the newer reporter's. Its `file_to_url` (`lib/exception_handler.rb:64-66`) differs only in reading `@hostname` and `@strip`, which `initialize` sets (`lib/exception_handler.rb:14`, `:16`), where the newer one calls the memoised accessors `hostname` and `strip` (`lib/reporter.rb:61-63`, `:69-71`); both hold the same values. The model therefore uses one definition of each (`Urls.FileToUrl`, `Header.GetHeader`, `Header.GetCategory`) for both reporters. Its `generate_html` (`lib/exception_handler.rb:82-124`) emits the same lines as the newer `html`, so both reporters render through `Render.Html`.

Some behaviours of the code are easy to overlook. The model keeps them as written:

- With no exceptions directory at all, `@ex2cat2list` is never assigned (lib/reporter.rb:86-90) and `html` fails on `nil` (lib/reporter.rb:138). The model returns `Err(NoAggregate)` rather than an empty report. An exceptions directory with no records does give an empty, well-formed report.
- A listed file whose name has no `T\d\d:\d\d:\d\d` makes `matches_time?` index `nil` and fail (lib/reporter.rb:115). The model returns `Err(MissingTimestamp(path))`.
- Across midnight, the window loses the records of `now`'s own day, not records of the previous day (lib/reporter.rb:27-43, 110). The date is the day of `now - N` minutes, so the files written after midnight lie in another date directory (`Reporter.WindowMissesToday`).
- Only the last exceptions directory's aggregate reaches the page, because `process_dir` starts each pass from `{}` (lib/reporter.rb:90).
- `only` is wrapped in a list and flattened, but `except` is stored as given (lib/reports_exceptions.rb:14-15). An `except` written as one symbol or string, not a list, makes `except.include?` raise for every exception that passes `only` (lib/reports_exceptions.rb:23). The model returns `Err(ExceptNotList(className))` (`Capture.SingleExceptRaises`).

## Model

| member | source | states |
|---|---|---|
| Reporter.DefaultSettings | lib/reporter.rb:45-83 | without options: 3 links per category, 2 stripped segments, sender `exception_reporter`, subject `Exception Report`, server `localhost`, port 25, host from the controller |
| Reporter.GivenSettings | lib/reporter.rb:45-83 | for any options, each one independently: when given it is the setting, and when absent its default is |
| Reporter.DateOfWindow | lib/reporter.rb:27-31 | with `minutes_ago` the `date` option is ignored, and the report date is the day of `now - 60·N` seconds (it names the same day as `u` exactly when `u` falls on that day) |
| Reporter.DateWithoutWindow | lib/reporter.rb:27-33 | without `minutes_ago`: the `date` option when given, or else the day before `now` |
| Reporter.TimeOfWindow | lib/reporter.rb:36-43 | without `minutes_ago` the time is `00:00:00`, even with a `date` option; with it, the time is 8 characters: the `HH:MM` of the window start, then `:00` |
| Scanner.EmbeddedTime | lib/reporter.rb:113-116 | the time found is the group of the leftmost `T\d\d:\d\d:\d\d`; none exactly when no position matches the pattern |
| Scanner.MatchesTime | lib/reporter.rb:114-116 | fails exactly when the name has no timestamp; otherwise true exactly when the embedded time is not lexicographically below `time` |
| Scanner.MatchesTimeSample | lib/reporter.rb:113-116 | a file stamped `T02:51:45` matches `02:51:00` and does not match `02:52:00` |
| Scanner.MidnightMatchesAll | lib/reporter.rb:114-116 | every file that carries a timestamp matches `00:00:00` |
| Scanner.DateFiles | lib/reporter.rb:110 | the glob, with the date and directory taken literally, keeps exactly the listed files at `<ex>/<date>/<name>/<name>`, in listing order |
| Scanner.SelectByTime | lib/reporter.rb:110 | the `select` fails exactly when a file lacks a timestamp; otherwise it keeps exactly the matching files, in order |
| Scanner.ExceptionFilesFor | lib/reporter.rb:109-111 | `exception_files_for` keeps exactly the globbed files whose time is not below `time`, as a subsequence of the listing; it fails exactly when a globbed file has no timestamp |
| Scanner.DateFilesFilter | lib/reporter.rb:110 | the glob is a `select` over the listing by the `<ex>/<date>/*/*` test |
| Scanner.SelectByTimeFilter | lib/reporter.rb:110 | when it succeeds, the time filter is a `select` over its input by `matches_time?` |
| Scanner.ExceptionFilesInOrder | lib/reporter.rb:109-111 | `exception_files_for` is the listing filtered by glob and time together: in listing order, with each file as often as it is listed |
| Scanner.RecordTimestamp | lib/reports_exceptions.rb:38-56 | the first timestamp in a written record's path is the `%H:%M:%S` of its write time |
| Scanner.RecordInDateGlob | lib/reports_exceptions.rb:40-43 | a written record lies under the date directory of `u` exactly when it was written on `u`'s day |
| Scanner.RecordSelection | lib/reporter.rb:109-116 | with the window of `u`, the record written at `t` is selected exactly when `t` is on `u`'s day and not before the minute holding `u` |
| Reporter.WindowSelection | lib/reporter.rb:27-43 | the `minutes_ago` window selects a record exactly when it was written on the window start's day, no earlier than the start's minute |
| Reporter.WindowMissesToday | lib/reporter.rb:27-43 | a window that opens on the previous day selects no record written on `now`'s own day |
| Reporter.PreviousDaySelection | lib/reporter.rb:27-43 | with neither option, a record is selected exactly when it was written on the day before `now` |
| Urls.StripSegments | lib/reporter.rb:119 | `split('/', strip + 1).last` is the join of the fields after the first `strip`; with `strip = 0` it is the whole path |
| Urls.StripLeadingSegments | lib/reporter.rb:118-120 | stripping as many segments as the path has leading directories leaves the rest of the path |
| Urls.FileToUrl | lib/reporter.rb:118-120 | the URL is `http://` + host + `/` + the stripped path; with `strip = 0` it holds the whole path |
| Urls.DirOfDropsLastTwo | lib/reporter.rb:101 | the `:dir` of `d/a/b` is `d`: the last two segments are dropped |
| Urls.LinkTextIsLastSegment | lib/reporter.rb:167 | a link's text is the last segment of its URL |
| Header.FirstDelimiter | lib/reporter.rb:124-127 | the index of the first line starting with `----`, or the number of lines when there is none; no earlier line is a delimiter |
| Header.GetHeader | lib/reporter.rb:122-130 | the lines before the first delimiter, concatenated, or exactly `empty` when they are blank; the result is never blank |
| Header.HeaderIgnoresRest | lib/reporter.rb:122-130 | nothing after the first delimiter line reaches the header |
| Header.GetCategory | lib/reporter.rb:132-134 | empty exactly when `occurred in ` followed by a non-colon never occurs; otherwise the text after the leftmost match, up to the next `:` or the end, non-empty and colon-free |
| Header.CategoryOfPhrase | lib/reporter.rb:132-134 | `… occurred in C: …` gives `C` when there is no earlier match |
| Header.NoPhraseNoCategory | lib/reporter.rb:133 | a header without the phrase has the empty category |
| RecordStore.DecodeEncode | lib/reports_exceptions.rb:41 | a class name without `_` comes back unchanged from its type directory's name |
| RecordStore.EncodeDecode | lib/reporter.rb:93 | a directory name without `:` is the encoding of the name the reporter shows for it |
| RecordStore.UnderscoreNameMisread | lib/reporter.rb:93 | a class name with `_` and no `::` comes back changed |
| Reporter.ExceptionNameRoundTrip | lib/reporter.rb:91-93 | the exception name shown for the type directory of class `C` is `C` itself when `C` has no `_` or `/` |
| Reporter.Gather | lib/reporter.rb:91-94 | the pass fails exactly when some type directory's files fail; otherwise it holds as many records as the type directories contribute |
| Reporter.GatherFrom | lib/reporter.rb:91-94 | every record of the pass comes from one type directory's contribution |
| Reporter.GatherInOrder | lib/reporter.rb:91-94 | a successful pass is the type directories' contributions one after another, in listing order, each in its own order |
| Reporter.GatherCovers | lib/reporter.rb:91-94 | every record a type directory contributes is in the pass |
| Reporter.DirRecordsFail | lib/reporter.rb:91-94 | the pass fails exactly when a type directory has a globbed file without a timestamp |
| Reporter.DirRecordsFrom | lib/reporter.rb:94-102 | every record of the pass is the record of a file selected in some type directory |
| Reporter.DirRecordsCover | lib/reporter.rb:94-102 | the record of every selected file of every type directory is in the pass |
| Reporter.ProcessDirGroups | lib/reporter.rb:89-107 | `process_dir` leaves exactly the grouping of the selected records, with counts adding up to the number of selected files |
| Reporter.ProcessAll | lib/reporter.rb:85-90 | with no directory there is no aggregate; otherwise it succeeds exactly when every pass succeeds and leaves the last directory's aggregate |
| Reporter.Run | lib/reporter.rb:12-19 | `run` succeeds exactly when the passes do; it mails exactly when `mail_to` is given, to that address, and the page renders the surviving aggregate with the per-method cap |
| Reporter.Deliver | lib/reporter.rb:14-18 | the outcome is a mail exactly when `mail_to` is given, addressed to it; either way it carries the page of the report, which opens with an `<html>` line and closes with a `</html>` line |
| Aggregate.FindEntry | lib/reporter.rb:99 | finds the entry of a type, or none when no entry has it |
| Aggregate.BuildRepresents | lib/reporter.rb:99-102 | the fold gives one entry per type. Its count is the number of records of that type and the sum of its list sizes. Its `:dir` comes from the type's first record URL. Its non-empty lists, one per distinct category, hold that category's URLs in record order |
| Aggregate.BuildTotal | lib/reporter.rb:100 | every record is counted once: the counts add up to the number of records |
| Aggregate.BuildEntry | lib/reporter.rb:99-102 | entry by entry: count equals the reference count and the sum of list sizes, `:dir` is derived from the first URL, each list is its category's URLs |
| Aggregate.BuildKeys | lib/reporter.rb:99 | a type has an entry exactly when some record has that type |
| Aggregate.FirstUrl | lib/reporter.rb:101 | the URL of the earliest record of a type, and none exactly when the type has no record |
| Sorting.SortDesc | lib/reporter.rb:138 | `sort_by.reverse` gives a non-increasing permutation of its input |
| Sorting.SortMembers | lib/reporter.rb:161 | the sorted sequence has the same members as the input |
| Render.Links | lib/reporter.rb:167 | at most `exceptions_per_method` links, the first URLs in order, each named by its last segment |
| Render.SectionOrder | lib/reporter.rb:154-172 | a section belongs to its exception and has one row per category list, in non-increasing list-size order |
| Render.SectionCovers | lib/reporter.rb:156-161 | every category list of the entry (the non-symbol keys) has its row |
| Render.SectionFrom | lib/reporter.rb:156-161 | every row renders one of the entry's category lists |
| Render.SectionPermutes | lib/reporter.rb:161 | the rows render a non-increasing permutation of the category lists |
| Render.ReportOrder | lib/reporter.rb:138-172 | one summary row and one section per entry, at the same positions, in non-increasing count order |
| Render.ReportPermutes | lib/reporter.rb:138 | the report renders a non-increasing permutation of the aggregate's entries |
| Render.ReportRows | lib/reporter.rb:161-167 | every detail row renders one category list of the aggregate |
| Render.LinesLayout | lib/reporter.rb:140-151 | the page's lines open with `<html>`, the anchor, the table and the header row, then one summary line per summary row, then `</table>`, and end with `</html>` |
| Render.HtmlFrame | lib/reporter.rb:140-176 | the page text starts with `<html>` on a line of its own and ends with `</html>` on a line of its own |
| Render.HtmlLines | lib/reporter.rb:176 | when no copied name holds a newline, splitting the page at newlines gives back exactly the emitted lines |
| Capture.SavesExceptions | lib/reports_exceptions.rb:11-16 | host and directory default to the machine name and `RAILS_ROOT/log/exceptions`; `only` is turned into symbols element by element; `except` and `log_when` are kept as given |
| Capture.ExceptIncludes | lib/reports_exceptions.rb:23 | `except.include?` answers list membership of the class symbol, and fails exactly when `except` is a single symbol or string rather than a list |
| Capture.ShouldWrite | lib/reports_exceptions.rb:21-26 | fails exactly when the class passes `only` and `except` is a single value; otherwise a record is written exactly when `only` is absent or holds the class symbol, `except` is absent or lacks it, and `log_when` is absent or answers true |
| Capture.Rescue | lib/reports_exceptions.rb:21-56 | raises exactly when the decision raises; otherwise a path is produced exactly when the record is written, and it is the record layout's path for the class and time |
| Capture.WritesByDefault | lib/reports_exceptions.rb:30-31 | without `only`, `except` or `log_when`, every exception is written |
| Capture.OnlyExcludes | lib/reports_exceptions.rb:22 | a class missing from `only` is never written |
| Capture.OnlySpellingIrrelevant | lib/reports_exceptions.rb:14-22 | any two `only` lists naming the same symbols position by position, whatever the spelling of each entry, decide every exception alike |
| Capture.OnlyStringsAsSymbols | lib/reports_exceptions.rb:14-22 | any `only` list decides like the list of its entries turned into symbols |
| Capture.ExceptSpellingMatters | lib/reports_exceptions.rb:15 | `except` naming the class as a string does not stop the record, while naming it as a symbol does |
| Capture.SingleExceptRaises | lib/reports_exceptions.rb:15-23 | an `except` given as one symbol or string, not wrapped in a list, makes every exception that `only` admits raise, so none is written |
| Capture.LogWhenDecides | lib/reports_exceptions.rb:24-31 | with only `log_when`, the record is written exactly when the block answers true |
| LegacyReporter.LegacyDateAgrees | lib/exception_handler.rb:9 | the legacy date ignores `minutes_ago` and equals the newer date when `minutes_ago` is absent |
| LegacyReporter.LegacyDefaultDate | lib/exception_handler.rb:9 | without a `date` option the legacy date is the day before `now` |
| LegacyReporter.LegacyDirRecords | lib/exception_handler.rb:46-57 | the legacy pass cannot fail and has one record per globbed file |
| LegacyReporter.LegacyProcessDirGroups | lib/exception_handler.rb:44-62 | the legacy aggregate groups exactly the globbed records, and its counts add up to the number of files listed |
| LegacyReporter.LegacyProcessAll | lib/exception_handler.rb:40-45 | the legacy passes leave an aggregate exactly when there is an exceptions directory, and it is the last directory's aggregate |
| LegacyReporter.LegacyRun | lib/exception_handler.rb:22-32 | the legacy `run` succeeds exactly when there is a directory; it mails exactly when `mail_to` is given; the page renders the last directory's legacy aggregate with the per-method cap, and it is framed by `<html>` and `</html>` lines |
| LegacyReporter.SelectAllAtMidnight | lib/reporter.rb:110-116 | against `00:00:00`, selecting by time keeps every file that carries a timestamp |
| LegacyReporter.LegacyAgrees | lib/exception_handler.rb:44-62 | when every listed file carries a timestamp, the newer pass at midnight reads exactly the legacy pass's records |
| LegacyReporter.LegacyRunAgrees | lib/exception_handler.rb:7-32 | without `minutes_ago`, and when every listed file carries a timestamp, the newer reporter gives exactly the legacy reporter's outcome |

## Left out

- Filesystem access is not modelled: `Dir[...]`, `File.new`, `mkdir_p` and `open`. Directory listings and file contents are inputs, and an unreadable directory is modelled as an empty listing.
- `Time.now`, time zones and daylight saving time are not modelled. `now` and write times are seconds on one fixed local wall clock.
- RecordStore.RecordFileName: the `.<n>` suffix is taken as the wall-clock seconds mod 1000. The source takes `time.to_i % 1000` (lib/reports_exceptions.rb:56), and `to_i` counts UTC epoch seconds, so the two differ whenever the UTC offset is not a multiple of 1000 seconds. The reporter never reads this suffix.
- Reporter.ReportDate and Reporter.ReportTime share one `now`. The source calls `Time.now` separately in `date` and in `time` (lib/reporter.rb:30, 39), so the two reads can straddle a minute or a midnight.
- SMTP delivery (`mail_html` in lib/reporter.rb:183-190 and lib/exception_handler.rb:126-133) is left out because it is network I/O. `run` yields `Mail(to, page)` where the source sends the page, and the message header and the `mail_from`, `smtp_server` and `smtp_port` settings are computed but not used.
- `verbose` output is left out; it is logging only.
- The Rails glue is left out: `rescue_from`, `cattr_accessor`, the ERB template and `render_to_string`, `rescue_action`, and the `module_eval`/`define_method` mechanics of `check_block`. `log_when` is modelled as a plain function of the exception.
- `sanitize_backtrace`, `rails_root` and `request_is_from_search_engine?` are left out. They are library path handling and request inspection, and they take no part in any report.
- The second `ReportsExceptions` module at lib/exception_handler.rb:136-208 is left out. It repeats the capture code of lib/reports_exceptions.rb with a different file-name format (`%Y-%m-%d_%H:%M:%S`), and the reporter's time filter does not read that format.
- install.rb is left out; it is a one-off file copy.
- Options arrive with their final types. `to_i` on string option values, negative `strip` or `exceptions_per_method`, and the value `false` for an option are not modelled.
- Scanner.DateFiles: the date and the directory paths are matched literally. In the source they are part of a `Dir[]` pattern (lib/reporter.rb:110, lib/exception_handler.rb:49), so glob characters in them (`*`, `?`, `[...]`, `{...}`) are expanded, and a `date` option such as `2008-09-*` selects a whole month; the model selects nothing for it. An entry the glob lists that cannot be read as a file (an unreadable file, or a directory at file depth) makes `get_header` raise in the source; the model has no such failure, since every listed record file is given with its lines.
- Sorting.SortDesc: the order among equal keys is not the source's. Ruby's `sort_by` is not stable, and `.reverse` then flips whatever order it left: two tied elements `[a, b]` come out as `[b, a]`, while the model keeps `[a, b]`. Every property proved about the page is stated for any non-increasing order (`Render.ReportPermutes`, `Render.SectionPermutes`), not for the tie order.
- Hash order: `exceptions_dir.each` over a string (lib/reporter.rb:86) needs Ruby 1.8, whose hashes are unordered. The key order of `@ex2cat2list` and of each `cat2list` is therefore hash order in the source. The model uses first-insertion order; this affects only the order among ties on the page, which no page property depends on.
- Each line of the `exceptions_dir` string except the last keeps its trailing newline in Ruby 1.8, and that newline ends up inside the glob pattern. The model's directory paths are the lines without it.
- The record contents written by the ERB template are not modelled. A record file is its lines, as `get_header` reads them.
