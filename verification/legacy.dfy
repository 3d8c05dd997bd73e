/**
 * The older `ExceptionHandler::Reporter` kept in `lib/exception_handler.rb`:
 * the same settings, the same record reading (`get_header` and
 * `get_category` are character for character those of the newer reporter;
 * `file_to_url` differs only in reading the `@hostname` and `@strip` that
 * `initialize` sets, which hold the values of the newer reporter's memoised
 * accessors; so the model uses `Urls.FileToUrl`, `Header.GetHeader` and
 * `Header.GetCategory` for both) and the same page, but no time window:
 * every file two levels below `<type dir>/<date>` is aggregated, and the date
 * ignores `minutes_ago`.
 */
module LegacyReporter {
  import opened Wrappers
  import opened Clock
  import opened Scanner
  import opened Aggregate
  import opened Render
  import opened Reporter

  /** `@date`: the `date` option, or else the `%Y-%m-%d` of 24 hours before `now`. */
  function LegacyDate(opts: Options, now: int): (date: string)
    ensures opts.date.Some? ==> date == opts.date.value
  {
    opts.date.GetOr(DateString(now - 24 * 3600))
  }

  /**
   * `minutes_ago` plays no part in the legacy date, and the two reporters
   * agree on the date whenever it is not given.
   */
  lemma LegacyDateAgrees(opts: Options, now: int, m: Option<int>)
    ensures LegacyDate(opts.(minutesAgo := m), now) == LegacyDate(opts, now)
    ensures opts.minutesAgo.None? ==> LegacyDate(opts, now) == ReportDate(opts, now)
  {
  }

  /** Without a `date` option the legacy date is the day before `now`. */
  lemma LegacyDefaultDate(opts: Options, now: int, u: int)
    requires opts.date.None?
    ensures LegacyDate(opts, now) == DateString(u) <==> u / SecondsPerDay == now / SecondsPerDay - 1
  {
    DayBefore(now);
    DateStringSameDay(now - 24 * 3600, u);
  }

  /** The records of the type directory `name`: one per file listed under its date directory. */
  function LegacyTypeRecords(d: ExceptionsDir, s: Settings, date: string, name: string): Result<seq<Record>>
  {
    Ok(RecordsOf(ExceptionName(d.path + "/" + name), s, DateFiles(d.files, d.path + "/" + name, date)))
  }

  /**
   * The loops of the legacy `process_dir`: every type directory in listing
   * order, every file under its date directory in listing order. Nothing
   * can fail, since no time is read from the file names.
   */
  function LegacyDirRecords(d: ExceptionsDir, s: Settings, date: string): (recs: seq<Record>)
    ensures |recs| == ListedCount(d, d.names, date)
  {
    var visit := name => LegacyTypeRecords(d, s, date, name);
    assert forall k :: 0 <= k < |d.names| ==> visit(d.names[k]).Ok?;
    LegacyContributed(d, s, date, d.names);
    Gather(d.names, visit).value
  }

  /** The number of files listed under the date directories of the type directories among `names`. */
  function ListedCount(d: ExceptionsDir, names: seq<string>, date: string): nat
  {
    if |names| == 0 then 0
    else
      (if TypeDirName(names[0]) then |DateFiles(d.files, d.path + "/" + names[0], date)| else 0)
        + ListedCount(d, names[1..], date)
  }

  lemma {:induction false} LegacyContributed(d: ExceptionsDir, s: Settings, date: string, names: seq<string>)
    ensures Contributed(names, name => LegacyTypeRecords(d, s, date, name)) == ListedCount(d, names, date)
    decreases |names|
  {
    if |names| > 0 {
      LegacyContributed(d, s, date, names[1..]);
    }
  }

  /** The legacy `process_dir(dir)`: the aggregate of every listed record, starting from `{}`. */
  function LegacyProcessDir(d: ExceptionsDir, s: Settings, date: string): seq<Entry>
  {
    Build(LegacyDirRecords(d, s, date))
  }

  /**
   * The legacy aggregate groups exactly the listed records, and its counts
   * add up to the number of files listed: nothing is filtered out.
   */
  lemma LegacyProcessDirGroups(d: ExceptionsDir, s: Settings, date: string)
    ensures Represents(LegacyProcessDir(d, s, date), LegacyDirRecords(d, s, date))
    ensures SumCounts(LegacyProcessDir(d, s, date)) == ListedCount(d, d.names, date)
  {
    BuildRepresents(LegacyDirRecords(d, s, date));
    BuildTotal(LegacyDirRecords(d, s, date));
  }

  /**
   * `get_files_from_exception_dirs`: each pass starts again from `{}`, so
   * the last directory's aggregate is left; with no directory there is
   * none, and `generate_html` fails.
   */
  function LegacyProcessAll(dirs: seq<ExceptionsDir>, s: Settings, date: string): (r: Result<seq<Entry>>)
    ensures r.Ok? <==> |dirs| > 0
    ensures r.Ok? ==> r.value == LegacyProcessDir(dirs[|dirs| - 1], s, date)
  {
    if |dirs| == 0 then Err(NoAggregate) else Ok(LegacyProcessDir(dirs[|dirs| - 1], s, date))
  }

  /**
   * The legacy `Reporter.run(opts)`: aggregate, render with
   * `generate_html`, then mail the page when `mail_to` is given and return
   * it otherwise. The page is framed by `<html>` and `</html>` lines.
   */
  function LegacyRun(opts: Options, controllerHost: string, dirs: seq<ExceptionsDir>, now: int): (r: Result<Outcome>)
    ensures r.Ok? <==> |dirs| > 0
    ensures r.Ok? ==> (r.value.Mail? <==> opts.mailTo.Some?)
    ensures r.Ok? ==> r.value.Mail? ==> r.value.to == opts.mailTo.value
    ensures r.Ok? ==>
              var s := SettingsOf(opts, controllerHost);
              r.value.html == Html(MakeReport(LegacyProcessAll(dirs, s, LegacyDate(opts, now)).value, s.perMethod))
    ensures r.Ok? ==> |r.value.html| >= 15 && r.value.html[..7] == "<html>\n" &&
                      r.value.html[|r.value.html| - 8..] == "\n</html>"
  {
    var s := SettingsOf(opts, controllerHost);
    var agg :- LegacyProcessAll(dirs, s, LegacyDate(opts, now));
    Ok(Deliver(opts.mailTo, MakeReport(agg, s.perMethod)))
  }

  /** Against midnight, selecting by time keeps every file that carries a time. */
  lemma {:induction false} SelectAllAtMidnight(files: seq<RecordFile>)
    requires forall f :: f in files ==> EmbeddedTime(f.path).Some?
    ensures SelectByTime(files, "00:00:00") == Ok(files)
  {
    if |files| > 0 {
      assert files[0] in files;
      MidnightMatchesAll(files[0].path);
      assert forall f :: f in files[1..] ==> f in files;
      SelectAllAtMidnight(files[1..]);
      SelectKeepsHead(files, "00:00:00");
    }
  }

  lemma SelectKeepsHead(files: seq<RecordFile>, time: string)
    requires |files| > 0 && MatchesTime(files[0].path, time) == Ok(true)
    requires SelectByTime(files[1..], time) == Ok(files[1..])
    ensures SelectByTime(files, time) == Ok(files)
  {
    assert files == [files[0]] + files[1..];
  }

  /** Two visits that agree on every name give the same pass. */
  lemma {:induction false} GatherAgrees(names: seq<string>, v: string -> Result<seq<Record>>, w: string -> Result<seq<Record>>)
    requires forall k :: 0 <= k < |names| ==> v(names[k]) == w(names[k])
    ensures Gather(names, v) == Gather(names, w)
    decreases |names|
  {
    if |names| > 0 {
      assert forall k :: 1 <= k < |names| ==> names[1..][k - 1] == names[k];
      GatherAgrees(names[1..], v, w);
    }
  }

  /** Every listed record file carries a time in its name. */
  predicate AllTimed(d: ExceptionsDir)
  {
    forall f :: f in d.files ==> EmbeddedTime(f.path).Some?
  }

  /**
   * When every record file carries a time, the newer pass with the
   * midnight filter reads exactly the records the legacy pass reads.
   */
  lemma LegacyAgrees(d: ExceptionsDir, s: Settings, date: string)
    requires AllTimed(d)
    ensures DirRecords(d, s, date, "00:00:00") == Ok(LegacyDirRecords(d, s, date))
  {
    var v := name => TypeRecords(d, s, date, "00:00:00", name);
    var w := name => LegacyTypeRecords(d, s, date, name);
    forall k | 0 <= k < |d.names|
      ensures v(d.names[k]) == w(d.names[k])
    {
      var ex := d.path + "/" + d.names[k];
      assert forall f :: f in DateFiles(d.files, ex, date) ==> f in d.files;
      SelectAllAtMidnight(DateFiles(d.files, ex, date));
    }
    GatherAgrees(d.names, v, w);
  }

  /**
   * Without `minutes_ago`, and when every record file carries a time, the
   * newer reporter produces exactly what the legacy one produces.
   */
  lemma LegacyRunAgrees(opts: Options, controllerHost: string, dirs: seq<ExceptionsDir>, now: int)
    requires opts.minutesAgo.None?
    requires forall k :: 0 <= k < |dirs| ==> AllTimed(dirs[k])
    ensures Run(opts, controllerHost, dirs, now) == LegacyRun(opts, controllerHost, dirs, now)
  {
    var s := SettingsOf(opts, controllerHost);
    var date := LegacyDate(opts, now);
    assert ReportDate(opts, now) == date && ReportTime(opts, now) == "00:00:00";
    if |dirs| > 0 {
      forall k | 0 <= k < |dirs|
        ensures ProcessDir(dirs[k], s, date, "00:00:00").Ok?
      {
        LegacyAgrees(dirs[k], s, date);
      }
      var last := dirs[|dirs| - 1];
      LegacyAgrees(last, s, date);
      assert ProcessDir(last, s, date, "00:00:00") == Ok(LegacyProcessDir(last, s, date));
      assert ProcessAll(dirs, s, date, "00:00:00") == LegacyProcessAll(dirs, s, date);
    }
  }
}
