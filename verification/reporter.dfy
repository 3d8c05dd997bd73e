/**
 * The reporter (`ExceptionHandler::Reporter` in `lib/reporter.rb`): its
 * options and their defaults, the report window (`date`, `time`), the pass
 * over every exceptions directory (`process_dir`) and `run`.
 *
 * The filesystem is an input: every exceptions directory is given with the
 * names directly under it and the record files below it, each with its
 * lines. The current time is an input instant `now`.
 */
module Reporter {
  import opened Wrappers
  import opened Text
  import opened Clock
  import opened RecordStore
  import opened Urls
  import opened Header
  import opened Scanner
  import opened Aggregate
  import opened Render

  /** The options hash; an absent key (`nil`) is `None`. Values already have their final types. */
  datatype Options = Options(
    minutesAgo: Option<int>,
    date: Option<string>,
    mailTo: Option<string>,
    mailFrom: Option<string>,
    mailSubject: Option<string>,
    hostname: Option<string>,
    exceptionsPerMethod: Option<nat>,
    strip: Option<nat>,
    smtpServer: Option<string>,
    smtpPort: Option<nat>)

  /** No option given. */
  const NoOptions: Options := Options(None, None, None, None, None, None, None, None, None, None)

  /** The settings the accessor methods settle on. */
  datatype Settings = Settings(
    mailTo: Option<string>,
    mailFrom: string,
    subject: string,
    hostname: string,
    perMethod: nat,
    strip: nat,
    smtpServer: string,
    smtpPort: nat)

  /**
   * The accessors `mail_to` ... `smtp_port`: each option, or its default;
   * the host name defaults to the controller's `exception_hostname`.
   */
  function SettingsOf(opts: Options, controllerHost: string): Settings
  {
    Settings(
      opts.mailTo,
      opts.mailFrom.GetOr("exception_reporter"),
      opts.mailSubject.GetOr("Exception Report"),
      opts.hostname.GetOr(controllerHost),
      opts.exceptionsPerMethod.GetOr(3),
      opts.strip.GetOr(2),
      opts.smtpServer.GetOr("localhost"),
      opts.smtpPort.GetOr(25))
  }

  /** Without options: three links per category, two path segments stripped, the stated mail defaults. */
  lemma DefaultSettings(controllerHost: string)
    ensures SettingsOf(NoOptions, controllerHost)
            == Settings(None, "exception_reporter", "Exception Report", controllerHost, 3, 2, "localhost", 25)
  {
  }

  /**
   * Each option is taken on its own: when it is given it wins over its
   * default, whatever else is given, and when it is absent its default applies.
   */
  lemma GivenSettings(opts: Options, controllerHost: string)
    ensures var s := SettingsOf(opts, controllerHost);
            && s.mailTo == opts.mailTo
            && (opts.mailFrom.Some? ==> s.mailFrom == opts.mailFrom.value)
            && (opts.mailFrom.None? ==> s.mailFrom == "exception_reporter")
            && (opts.mailSubject.Some? ==> s.subject == opts.mailSubject.value)
            && (opts.mailSubject.None? ==> s.subject == "Exception Report")
            && (opts.hostname.Some? ==> s.hostname == opts.hostname.value)
            && (opts.hostname.None? ==> s.hostname == controllerHost)
            && (opts.exceptionsPerMethod.Some? ==> s.perMethod == opts.exceptionsPerMethod.value)
            && (opts.exceptionsPerMethod.None? ==> s.perMethod == 3)
            && (opts.strip.Some? ==> s.strip == opts.strip.value)
            && (opts.strip.None? ==> s.strip == 2)
            && (opts.smtpServer.Some? ==> s.smtpServer == opts.smtpServer.value)
            && (opts.smtpServer.None? ==> s.smtpServer == "localhost")
            && (opts.smtpPort.Some? ==> s.smtpPort == opts.smtpPort.value)
            && (opts.smtpPort.None? ==> s.smtpPort == 25)
  {
  }

  const SecondsPerMinute: int := 60

  /** The instant the window opens when `minutes_ago` is given: `Time.now - 60 * minutes_ago`. */
  function WindowStart(now: int, minutesAgo: int): int
  {
    now - SecondsPerMinute * minutesAgo
  }

  /**
   * `date`: the `%Y-%m-%d` of the window start when `minutes_ago` is given;
   * otherwise the `date` option, or else the `%Y-%m-%d` of 24 hours ago.
   */
  function ReportDate(opts: Options, now: int): string
  {
    match opts.minutesAgo
    case Some(m) => DateString(WindowStart(now, m))
    case None =>
      match opts.date
      case Some(d) => d
      case None => DateString(now - 24 * 3600)
  }

  /**
   * `time`: `%H:%M:00` of the window start when `minutes_ago` is given,
   * otherwise midnight.
   */
  function ReportTime(opts: Options, now: int): string
  {
    match opts.minutesAgo
    case Some(m) => MinuteString(WindowStart(now, m))
    case None => "00:00:00"
  }

  /**
   * With `minutes_ago`, the report date is the day of the window start,
   * whatever the `date` option says.
   */
  lemma DateOfWindow(opts: Options, now: int, d: Option<string>, u: int)
    requires opts.minutesAgo.Some?
    ensures ReportDate(opts.(date := d), now) == ReportDate(opts, now)
    ensures ReportDate(opts, now) == DateString(u)
            <==> u / SecondsPerDay == WindowStart(now, opts.minutesAgo.value) / SecondsPerDay
  {
    DateStringSameDay(WindowStart(now, opts.minutesAgo.value), u);
  }

  /** Without `minutes_ago`: the `date` option as given, or else the day before `now`. */
  lemma DateWithoutWindow(opts: Options, now: int, u: int)
    requires opts.minutesAgo.None?
    ensures opts.date.Some? ==> ReportDate(opts, now) == opts.date.value
    ensures opts.date.None? ==>
              (ReportDate(opts, now) == DateString(u) <==> u / SecondsPerDay == now / SecondsPerDay - 1)
  {
    if opts.date.None? {
      DayBefore(now);
      DateStringSameDay(now - 24 * 3600, u);
    }
  }

  /** 24 hours before `now` is on the previous day. */
  lemma DayBefore(now: int)
    ensures (now - 24 * 3600) / SecondsPerDay == now / SecondsPerDay - 1
  {
    var q := now / SecondsPerDay;
    assert now == q * SecondsPerDay + now % SecondsPerDay;
    assert now - 24 * 3600 == (q - 1) * SecondsPerDay + now % SecondsPerDay;
  }

  /**
   * The report time: midnight without `minutes_ago` (a `date` option does
   * not change that); with it, the hours and minutes of the window start
   * followed by `:00`.
   */
  lemma TimeOfWindow(opts: Options, now: int)
    ensures opts.minutesAgo.None? ==> ReportTime(opts, now) == "00:00:00"
    ensures opts.minutesAgo.Some? ==>
              var t := ReportTime(opts, now);
              var c := ClockString(WindowStart(now, opts.minutesAgo.value));
              |t| == 8 && t[..5] == c[..5] && t[5..] == ":00"
  {
    if opts.minutesAgo.Some? {
      var u := WindowStart(now, opts.minutesAgo.value);
      var s := Breakdown(u);
      ClockShape(s.hour, s.minute, 0);
      ClockShape(s.hour, s.minute, s.second);
      Pad2Digits(0);
      var t := MinuteString(u);
      var c := ClockString(u);
      assert t[..5] == t[0..2] + [t[2]] + t[3..5];
      assert c[..5] == c[0..2] + [c[2]] + c[3..5];
      assert t[5..] == [t[5]] + t[6..8];
    }
  }

  /** One exceptions directory: the names directly under it and the record files below it. */
  datatype ExceptionsDir = ExceptionsDir(path: string, names: seq<string>, files: seq<RecordFile>)

  /** A name `[A-Z]*` matches. */
  predicate TypeDirName(name: string)
  {
    |name| >= 1 && 'A' <= name[0] <= 'Z' && '/' !in name
  }

  /** `ex.split('/').last.gsub('_', '::')`. */
  function ExceptionName(ex: string): string
  {
    DecodeTypeName(LastField(ex, '/'))
  }

  /** The exception named by a type directory is its decoded name. */
  lemma ExceptionNameOf(dir: string, name: string)
    requires TypeDirName(name)
    ensures ExceptionName(dir + "/" + name) == DecodeTypeName(name)
  {
    LastFieldOf(dir, name, '/');
  }

  /**
   * The type directory a class writes to names that class again, as long as
   * the class name has no underscore.
   */
  lemma ExceptionNameRoundTrip(dir: string, className: string)
    requires className != "" && '/' !in className && '_' !in className
    ensures ExceptionName(dir + "/" + EncodeTypeName(className)) == className
  {
    var enc := EncodeTypeName(className);
    DecodeEncode(className);
    assert DecodeTypeName("") == "";
    LastFieldOf(dir, enc, '/');
  }

  /** What one record file contributes to the aggregate: its URL and the category of its header. */
  function RecordOf(exception: string, s: Settings, f: RecordFile): Record
  {
    Record(exception, FileToUrl(s.hostname, s.strip, f.path), GetCategory(GetHeader(f.lines)))
  }

  function RecordsOf(exception: string, s: Settings, files: seq<RecordFile>): (r: seq<Record>)
    ensures |r| == |files|
    ensures forall k :: 0 <= k < |r| ==> r[k] == RecordOf(exception, s, files[k])
  {
    if |files| == 0 then [] else [RecordOf(exception, s, files[0])] + RecordsOf(exception, s, files[1..])
  }

  /** `exception_files_for` of the type directory `name`. */
  function Selected(d: ExceptionsDir, name: string, date: string, time: string): Result<seq<RecordFile>>
  {
    ExceptionFilesFor(d.files, d.path + "/" + name, date, time)
  }

  /** The records of the type directory `name`: one per selected file, in listing order. */
  function TypeRecords(d: ExceptionsDir, s: Settings, date: string, time: string, name: string)
    : Result<seq<Record>>
  {
    match Selected(d, name, date, time)
    case Err(e) => Err(e)
    case Ok(files) => Ok(RecordsOf(ExceptionName(d.path + "/" + name), s, files))
  }

  /**
   * The loops of `process_dir` over the names under a directory: the type
   * directories in listing order, each contributing what `visit` gives for
   * it; the first directory that fails stops the pass.
   */
  function Gather(names: seq<string>, visit: string -> Result<seq<Record>>): (r: Result<seq<Record>>)
    ensures r.Err? <==> exists k :: 0 <= k < |names| && TypeDirName(names[k]) && visit(names[k]).Err?
    ensures r.Ok? ==> |r.value| == Contributed(names, visit)
  {
    if |names| == 0 then Ok([])
    else
      var rest := Gather(names[1..], visit);
      assert forall k :: 1 <= k < |names| ==> names[k] == names[1..][k - 1];
      if !TypeDirName(names[0]) then rest
      else
        match visit(names[0])
        case Err(e) => Err(e)
        case Ok(here) =>
          match rest
          case Err(e) => Err(e)
          case Ok(recs) => Ok(here + recs)
  }

  /** How many records the type directories among `names` contribute. */
  function Contributed(names: seq<string>, visit: string -> Result<seq<Record>>): nat
  {
    if |names| == 0 then 0
    else
      (if TypeDirName(names[0]) && visit(names[0]).Ok? then |visit(names[0]).value| else 0)
        + Contributed(names[1..], visit)
  }

  /** The sequences of `xs` one after another. */
  function Flatten(xs: seq<seq<Record>>): seq<Record>
  {
    if |xs| == 0 then [] else xs[0] + Flatten(xs[1..])
  }

  /** What each type directory among `names` that `visit` reads gives, in listing order. */
  function Contributions(names: seq<string>, visit: string -> Result<seq<Record>>): seq<seq<Record>>
  {
    if |names| == 0 then []
    else if TypeDirName(names[0]) && visit(names[0]).Ok? then [visit(names[0]).value] + Contributions(names[1..], visit)
    else Contributions(names[1..], visit)
  }

  /**
   * A pass is the type directories' records one directory after another,
   * in listing order, each directory's records in its own order: nothing is
   * repeated, dropped or reordered.
   */
  lemma {:induction false} GatherInOrder(names: seq<string>, visit: string -> Result<seq<Record>>)
    ensures Gather(names, visit).Ok? ==> Gather(names, visit).value == Flatten(Contributions(names, visit))
    decreases |names|
  {
    if |names| > 0 {
      GatherInOrder(names[1..], visit);
      if TypeDirName(names[0]) && visit(names[0]).Ok? {
        var xs := [visit(names[0]).value] + Contributions(names[1..], visit);
        assert xs[1..] == Contributions(names[1..], visit);
      }
    }
  }

  /** Every record of a pass comes from some type directory. */
  lemma {:induction false} GatherFrom(names: seq<string>, visit: string -> Result<seq<Record>>)
    requires Gather(names, visit).Ok?
    ensures forall rec :: rec in Gather(names, visit).value ==>
              exists k :: 0 <= k < |names| && TypeDirName(names[k]) && visit(names[k]).Ok? && rec in visit(names[k]).value
    decreases |names|
  {
    if |names| > 0 {
      var tail := names[1..];
      GatherFrom(tail, visit);
      forall rec | rec in Gather(names, visit).value
        ensures exists k :: 0 <= k < |names| && TypeDirName(names[k]) && visit(names[k]).Ok? && rec in visit(names[k]).value
      {
        if TypeDirName(names[0]) && rec in visit(names[0]).value {
        } else {
          assert rec in Gather(tail, visit).value;
          var k :| 0 <= k < |tail| && TypeDirName(tail[k]) && visit(tail[k]).Ok? && rec in visit(tail[k]).value;
          assert tail[k] == names[k + 1];
        }
      }
    }
  }

  /** Every record a type directory contributes is in the pass. */
  lemma {:induction false} GatherCovers(names: seq<string>, visit: string -> Result<seq<Record>>, k: nat)
    requires Gather(names, visit).Ok?
    requires k < |names| && TypeDirName(names[k])
    ensures visit(names[k]).Ok?
    ensures forall rec :: rec in visit(names[k]).value ==> rec in Gather(names, visit).value
    decreases |names|
  {
    if k > 0 {
      assert names[1..][k - 1] == names[k];
      GatherCovers(names[1..], visit, k - 1);
    }
  }

  /**
   * The records the loops of `process_dir` visit, in order: type
   * directories in listing order, each one's selected files in listing
   * order. A selected file without a timestamp stops the pass.
   */
  function DirRecords(d: ExceptionsDir, s: Settings, date: string, time: string): Result<seq<Record>>
  {
    Gather(d.names, name => TypeRecords(d, s, date, time, name))
  }

  /** The pass fails exactly when some type directory has a selected file without a timestamp. */
  lemma DirRecordsFail(d: ExceptionsDir, s: Settings, date: string, time: string)
    ensures DirRecords(d, s, date, time).Err? <==>
              exists k, f :: 0 <= k < |d.names| && TypeDirName(d.names[k]) && f in d.files &&
                             InGlob(f.path, d.path + "/" + d.names[k] + "/" + date) && EmbeddedTime(f.path).None?
  {
    var visit := name => TypeRecords(d, s, date, time, name);
    forall k | 0 <= k < |d.names|
      ensures visit(d.names[k]).Err? <==> Selected(d, d.names[k], date, time).Err?
    {
    }
  }

  /** `rec` is the record of a file selected in the type directory `d.names[k]`. */
  predicate FromSelected(d: ExceptionsDir, s: Settings, date: string, time: string, rec: Record)
  {
    exists k, f :: 0 <= k < |d.names| && TypeDirName(d.names[k]) && Selected(d, d.names[k], date, time).Ok? &&
                   f in Selected(d, d.names[k], date, time).value &&
                   rec == RecordOf(ExceptionName(d.path + "/" + d.names[k]), s, f)
  }

  /** Every record of the pass is the record of a selected file of some type directory. */
  lemma DirRecordsFrom(d: ExceptionsDir, s: Settings, date: string, time: string)
    requires DirRecords(d, s, date, time).Ok?
    ensures forall rec :: rec in DirRecords(d, s, date, time).value ==> FromSelected(d, s, date, time, rec)
  {
    var visit := name => TypeRecords(d, s, date, time, name);
    GatherFrom(d.names, visit);
    forall rec | rec in DirRecords(d, s, date, time).value
      ensures FromSelected(d, s, date, time, rec)
    {
      var k :| 0 <= k < |d.names| && TypeDirName(d.names[k]) && visit(d.names[k]).Ok? && rec in visit(d.names[k]).value;
      var files := Selected(d, d.names[k], date, time).value;
      var here := RecordsOf(ExceptionName(d.path + "/" + d.names[k]), s, files);
      assert visit(d.names[k]).value == here;
      var j :| 0 <= j < |here| && here[j] == rec;
      assert files[j] in files;
    }
  }

  /** The record of every selected file of every type directory is in the pass. */
  lemma DirRecordsCover(d: ExceptionsDir, s: Settings, date: string, time: string, k: nat, f: RecordFile)
    requires DirRecords(d, s, date, time).Ok?
    requires k < |d.names| && TypeDirName(d.names[k])
    requires f in Selected(d, d.names[k], date, time).value
    ensures RecordOf(ExceptionName(d.path + "/" + d.names[k]), s, f) in DirRecords(d, s, date, time).value
  {
    var visit := name => TypeRecords(d, s, date, time, name);
    GatherCovers(d.names, visit, k);
    var files := Selected(d, d.names[k], date, time).value;
    var here := RecordsOf(ExceptionName(d.path + "/" + d.names[k]), s, files);
    assert visit(d.names[k]).value == here;
    var j :| 0 <= j < |files| && files[j] == f;
    assert here[j] in here;
  }

  /** The number of selected files over all type directories. */
  function SelectedCount(d: ExceptionsDir, names: seq<string>, date: string, time: string): nat
  {
    if |names| == 0 then 0
    else
      (if TypeDirName(names[0]) && Selected(d, names[0], date, time).Ok?
       then |Selected(d, names[0], date, time).value| else 0)
        + SelectedCount(d, names[1..], date, time)
  }

  /** The pass has one record per selected file. */
  lemma {:induction false} ContributedCount(d: ExceptionsDir, s: Settings, date: string, time: string, names: seq<string>)
    ensures Contributed(names, name => TypeRecords(d, s, date, time, name)) == SelectedCount(d, names, date, time)
    decreases |names|
  {
    if |names| > 0 {
      ContributedCount(d, s, date, time, names[1..]);
    }
  }

  /**
   * `process_dir(dir)`: the aggregate of the directory's records, starting
   * from `{}`; it groups exactly those records and counts each once.
   */
  function ProcessDir(d: ExceptionsDir, s: Settings, date: string, time: string): Result<seq<Entry>>
  {
    var recs :- DirRecords(d, s, date, time);
    Ok(Build(recs))
  }

  /**
   * A successful `process_dir` leaves the grouping of the pass's records:
   * one entry per exception type, its count, `:dir` and category lists as
   * `Aggregate.Represents` states, and a total count equal to the number of
   * selected files.
   */
  lemma ProcessDirGroups(d: ExceptionsDir, s: Settings, date: string, time: string)
    requires ProcessDir(d, s, date, time).Ok?
    ensures var agg := ProcessDir(d, s, date, time).value;
            Represents(agg, DirRecords(d, s, date, time).value) &&
            SumCounts(agg) == SelectedCount(d, d.names, date, time)
  {
    var recs := DirRecords(d, s, date, time).value;
    ContributedCount(d, s, date, time, d.names);
    BuildRepresents(recs);
    BuildTotal(recs);
  }

  /**
   * `get_files_from_exception_dirs`: every directory in turn, each pass
   * starting again from `{}`, so only the last directory's aggregate is
   * left; with no directory at all there is none, and `html` fails.
   */
  function ProcessAll(dirs: seq<ExceptionsDir>, s: Settings, date: string, time: string): (r: Result<seq<Entry>>)
    ensures |dirs| == 0 ==> r == Err(NoAggregate)
    ensures r.Ok? <==> |dirs| > 0 && forall k :: 0 <= k < |dirs| ==> ProcessDir(dirs[k], s, date, time).Ok?
    ensures r.Ok? ==> r == ProcessDir(dirs[|dirs| - 1], s, date, time)
  {
    if |dirs| == 0 then Err(NoAggregate) else LastPass(dirs, d => ProcessDir(d, s, date, time))
  }

  /** The passes in order: the first failure stops them, otherwise the last one's aggregate is left. */
  function LastPass(dirs: seq<ExceptionsDir>, pass: ExceptionsDir -> Result<seq<Entry>>): (r: Result<seq<Entry>>)
    requires |dirs| > 0
    ensures r.Ok? <==> forall k :: 0 <= k < |dirs| ==> pass(dirs[k]).Ok?
    ensures r.Ok? ==> r == pass(dirs[|dirs| - 1])
    decreases |dirs|
  {
    var here := pass(dirs[0]);
    if here.Err? || |dirs| == 1 then here
    else
      assert forall k :: 1 <= k < |dirs| ==> dirs[1..][k - 1] == dirs[k];
      LastPass(dirs[1..], pass)
  }

  /** What `run` hands back: the report itself, or the report mailed to `mail_to`. */
  datatype Outcome = Page(html: string) | Mail(to: string, html: string)

  /**
   * `Reporter.run(opts)`: process every exceptions directory with the
   * report window, render the surviving aggregate, then mail it when
   * `mail_to` is given and return it otherwise.
   */
  function Run(opts: Options, controllerHost: string, dirs: seq<ExceptionsDir>, now: int): (r: Result<Outcome>)
    ensures r.Ok? <==> ProcessAll(dirs, SettingsOf(opts, controllerHost), ReportDate(opts, now), ReportTime(opts, now)).Ok?
    ensures r.Ok? ==> (r.value.Mail? <==> opts.mailTo.Some?)
    ensures r.Ok? ==> r.value.Mail? ==> r.value.to == opts.mailTo.value
    ensures r.Ok? ==>
              var s := SettingsOf(opts, controllerHost);
              var agg := ProcessAll(dirs, s, ReportDate(opts, now), ReportTime(opts, now)).value;
              r.value.html == Html(MakeReport(agg, s.perMethod))
  {
    var s := SettingsOf(opts, controllerHost);
    var agg :- ProcessAll(dirs, s, ReportDate(opts, now), ReportTime(opts, now));
    Ok(Deliver(opts.mailTo, MakeReport(agg, s.perMethod)))
  }

  /**
   * The end of `run`: the page of `report`, mailed to `mail_to` when that is
   * given and handed back otherwise.
   */
  function Deliver(mailTo: Option<string>, report: Report): (o: Outcome)
    ensures o.Mail? <==> mailTo.Some?
    ensures o.Mail? ==> o.to == mailTo.value
    ensures o.html == Html(report)
    ensures |o.html| >= 15 && o.html[..7] == "<html>\n" && o.html[|o.html| - 8..] == "\n</html>"
  {
    HtmlFrame(report);
    var html := Html(report);
    if mailTo.Some? then Mail(mailTo.value, html) else Page(html)
  }

  /**
   * The window of `minutes_ago = m`: among the listed files of class `c`'s
   * type directory, the record `c` wrote at `t` is selected exactly when it
   * lies on the day of the window start `u` and not before the minute
   * holding `u`.
   */
  lemma WindowSelection(opts: Options, now: int, d: ExceptionsDir, className: string, t: int, lines: seq<string>)
    requires opts.minutesAgo.Some?
    requires forall i: nat :: !TimestampAt(d.path + "/" + EncodeTypeName(className), i)
    requires RecordFile(RecordPath(d.path, className, t), lines) in d.files
    requires Selected(d, EncodeTypeName(className), ReportDate(opts, now), ReportTime(opts, now)).Ok?
    ensures var u := WindowStart(now, opts.minutesAgo.value);
            RecordFile(RecordPath(d.path, className, t), lines)
              in Selected(d, EncodeTypeName(className), ReportDate(opts, now), ReportTime(opts, now)).value
            <==> t / SecondsPerDay == u / SecondsPerDay && t >= u / 60 * 60
  {
    RecordSelection(d.files, d.path, className, t, lines, WindowStart(now, opts.minutesAgo.value));
  }

  /**
   * The window does not roll over midnight: when it opens on the day
   * before `now`, a record written later on `now`'s own day is not
   * selected, however recent.
   */
  lemma WindowMissesToday(opts: Options, now: int, d: ExceptionsDir, className: string, t: int, lines: seq<string>)
    requires opts.minutesAgo.Some?
    requires WindowStart(now, opts.minutesAgo.value) / SecondsPerDay < now / SecondsPerDay
    requires t / SecondsPerDay == now / SecondsPerDay
    requires forall i: nat :: !TimestampAt(d.path + "/" + EncodeTypeName(className), i)
    requires RecordFile(RecordPath(d.path, className, t), lines) in d.files
    requires Selected(d, EncodeTypeName(className), ReportDate(opts, now), ReportTime(opts, now)).Ok?
    ensures RecordFile(RecordPath(d.path, className, t), lines)
              !in Selected(d, EncodeTypeName(className), ReportDate(opts, now), ReportTime(opts, now)).value
  {
    WindowSelection(opts, now, d, className, t, lines);
  }

  /**
   * Without `minutes_ago` or `date`, the record written at `t` is selected
   * exactly when it was written on the day before `now`.
   */
  lemma PreviousDaySelection(opts: Options, now: int, d: ExceptionsDir, className: string, t: int, lines: seq<string>)
    requires opts.minutesAgo.None? && opts.date.None?
    requires forall i: nat :: !TimestampAt(d.path + "/" + EncodeTypeName(className), i)
    requires RecordFile(RecordPath(d.path, className, t), lines) in d.files
    requires Selected(d, EncodeTypeName(className), ReportDate(opts, now), ReportTime(opts, now)).Ok?
    ensures RecordFile(RecordPath(d.path, className, t), lines)
              in Selected(d, EncodeTypeName(className), ReportDate(opts, now), ReportTime(opts, now)).value
            <==> t / SecondsPerDay == now / SecondsPerDay - 1
  {
    var u := now - 24 * 3600;
    DayBefore(now);
    RecordInDateGlob(d.path, className, t, u);
    RecordTimestamp(d.path, className, t);
    MidnightMatchesAll(RecordPath(d.path, className, t));
  }
}
