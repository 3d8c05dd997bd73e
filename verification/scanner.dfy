/**
 * Finding the records of one exception type for the report window
 * (`exception_files_for`, `matches_time?`). The directory listing is an
 * input: every file found under the type directory, in the order the
 * filesystem lists them, with its lines.
 */
module Scanner {
  import opened Wrappers
  import opened Text
  import opened Clock
  import opened RecordStore

  /** A record file as listed: its full path and its lines. */
  datatype RecordFile = RecordFile(path: string, lines: seq<string>)

  /** What position `k` of `T\d\d:\d\d:\d\d` accepts. */
  predicate PatternChar(k: nat, ch: char)
  {
    if k == 0 then ch == 'T' else if k == 3 || k == 6 then ch == ':' else IsDigit(ch)
  }

  const TimestampLength: nat := 9

  /** `T\d\d:\d\d:\d\d` occurs at `i`. */
  predicate TimestampAt(s: string, i: nat)
  {
    i + TimestampLength <= |s| && forall k :: i <= k < i + TimestampLength ==> PatternChar(k - i, s[k])
  }

  /** The leftmost occurrence of the pattern at or after `from`. */
  function FindTimestamp(s: string, from: nat): (r: Option<nat>)
    ensures r.Some? ==> from <= r.value && TimestampAt(s, r.value)
    ensures r.Some? ==> forall i :: from <= i < r.value ==> !TimestampAt(s, i)
    ensures r.None? ==> forall i :: from <= i ==> !TimestampAt(s, i)
    decreases |s| - from
  {
    if from + TimestampLength > |s| then None
    else if TimestampAt(s, from) then Some(from)
    else FindTimestamp(s, from + 1)
  }

  /** `file.scan(/T(\d\d:\d\d:\d\d)/)[0][0]`: the time of the first match, if any. */
  function EmbeddedTime(file: string): (r: Option<string>)
    ensures r.None? <==> forall i :: 0 <= i ==> !TimestampAt(file, i)
    ensures r.Some? ==> exists i: nat :: TimestampAt(file, i) && r.value == file[i + 1..i + TimestampLength] &&
                                    forall j :: 0 <= j < i ==> !TimestampAt(file, j)
  {
    match FindTimestamp(file, 0)
    case None => None
    case Some(i) => Some(file[i + 1..i + TimestampLength])
  }

  /**
   * `matches_time?(file)`: whether the file's embedded time is not before
   * `time`; a path without one makes Ruby index `nil`, an error.
   */
  function MatchesTime(file: string, time: string): (r: Result<bool>)
    ensures r.Err? <==> EmbeddedTime(file).None?
    ensures r.Err? ==> r.error == MissingTimestamp(file)
    ensures r.Ok? ==> r.value == !LexLess(EmbeddedTime(file).value, time)
  {
    match EmbeddedTime(file)
    case None => Err(MissingTimestamp(file))
    case Some(hms) => Ok(!LexLess(hms, time))
  }

  /**
   * A file stamped `T02:51:45` is kept against `02:51:00` and dropped
   * against `02:52:00`: the comparison is on the characters of the times.
   */
  lemma MatchesTimeSample(file: string)
    requires EmbeddedTime(file) == Some("02:51:45")
    ensures MatchesTime(file, "02:51:00") == Ok(true)
    ensures MatchesTime(file, "02:52:00") == Ok(false)
  {
    assert "02:51:45" == "02:5" + "1:45";
    assert "02:51:00" == "02:5" + "1:00";
    assert "02:52:00" == "02:5" + "2:00";
    LexLessCommonPrefix("02:5", "1:45", "1:00");
    LexLessCommonPrefix("02:5", "1:45", "2:00");
  }

  /** A name a glob `*` matches: non-empty, without `/`, not hidden. */
  predicate GlobName(name: string)
  {
    name != "" && '/' !in name && name[0] != '.'
  }

  // `path` matches the two-level glob below `dir`: two visible names follow `dir`.
  predicate InGlob(path: string, dir: string)
  {
    var prefix := dir + "/";
    |prefix| <= |path| && path[..|prefix|] == prefix &&
    var f := Fields(path[|prefix|..], '/');
    |f| == 2 && GlobName(f[0]) && GlobName(f[1])
  }

  /** `dir/a/b` is in the glob when `a` and `b` are visible names. */
  lemma InGlobOf(dir: string, a: string, b: string)
    requires GlobName(a) && GlobName(b)
    ensures InGlob(dir + "/" + a + "/" + b, dir)
  {
    var path := dir + "/" + a + "/" + b;
    assert path[|dir + "/"|..] == a + "/" + b;
    FieldsAppend(a, b, '/');
    assert Fields(a, '/') == [a];
    assert Fields(b, '/') == [b];
  }

  /** `a` keeps the order of the elements it takes from `b`. */
  predicate Subsequence<T(==)>(a: seq<T>, b: seq<T>)
    decreases |b|
  {
    if |a| == 0 then true
    else if |b| == 0 then false
    else if a[0] == b[0] then Subsequence(a[1..], b[1..])
    else Subsequence(a, b[1..])
  }

  lemma SubsequenceCons<T>(x: T, a: seq<T>, b: seq<T>)
    requires Subsequence(a, b)
    ensures Subsequence(a, [x] + b) && Subsequence([x] + a, [x] + b)
  {
    assert ([x] + b)[1..] == b;
    assert ([x] + a)[1..] == a;
    SubsequenceWeaken(a, b, x);
  }

  /** Dropping the first element taken keeps the rest a subsequence. */
  lemma {:induction false} SubsequenceDrop<T>(a: seq<T>, b: seq<T>)
    requires |a| > 0 && Subsequence(a, b)
    ensures Subsequence(a[1..], b)
    decreases |b|, 0
  {
    assert b == [b[0]] + b[1..];
    if a[0] == b[0] {
      SubsequenceWeaken(a[1..], b[1..], b[0]);
    } else {
      SubsequenceDrop(a, b[1..]);
      SubsequenceWeaken(a[1..], b[1..], b[0]);
    }
  }

  /** A subsequence of `b` is one of any extension of `b` at the front. */
  lemma {:induction false} SubsequenceWeaken<T>(a: seq<T>, b: seq<T>, x: T)
    requires Subsequence(a, b)
    ensures Subsequence(a, [x] + b)
    decreases |b|, 1
  {
    assert ([x] + b)[1..] == b;
    if |a| > 0 && a[0] == x {
      SubsequenceDrop(a, b);
    }
  }

  // The two-level glob below `ex/date`: the listed files that lie at `ex/date/<hour>/<name>`, in listing order.
  function DateFiles(files: seq<RecordFile>, ex: string, date: string): (r: seq<RecordFile>)
    ensures Subsequence(r, files)
    ensures forall f :: f in r <==> f in files && InGlob(f.path, ex + "/" + date)
  {
    if |files| == 0 then []
    else
      var rest := DateFiles(files[1..], ex, date);
      assert files == [files[0]] + files[1..];
      SubsequenceCons(files[0], rest, files[1..]);
      if InGlob(files[0].path, ex + "/" + date) then [files[0]] + rest else rest
  }

  /** `files.select { |f| matches_time?(f) }`, stopping at the first file without a time. */
  function SelectByTime(files: seq<RecordFile>, time: string): (r: Result<seq<RecordFile>>)
    ensures r.Err? <==> exists f :: f in files && EmbeddedTime(f.path).None?
    ensures r.Ok? ==> Subsequence(r.value, files)
    ensures r.Ok? ==> forall f :: f in r.value <==> f in files && MatchesTime(f.path, time) == Ok(true)
  {
    if |files| == 0 then Ok([])
    else
      assert files == [files[0]] + files[1..];
      match MatchesTime(files[0].path, time)
      case Err(e) => Err(e)
      case Ok(keep) =>
        match SelectByTime(files[1..], time)
        case Err(e) => Err(e)
        case Ok(rest) =>
          SubsequenceCons(files[0], rest, files[1..]);
          Ok(if keep then [files[0]] + rest else rest)
  }

  // `exception_files_for(ex)`: the files at `ex/date/<hour>/<name>` whose
  // embedded time is not before `time`, in listing order; an error when one
  // of those files carries no time.
  function ExceptionFilesFor(files: seq<RecordFile>, ex: string, date: string, time: string)
    : (r: Result<seq<RecordFile>>)
    ensures r.Err? <==> exists f :: f in files && InGlob(f.path, ex + "/" + date) && EmbeddedTime(f.path).None?
    ensures r.Ok? ==> Subsequence(r.value, files)
    ensures r.Ok? ==> forall f :: f in r.value <==>
              f in files && InGlob(f.path, ex + "/" + date) && !LexLess(EmbeddedTime(f.path).value, time)
  {
    var listed := DateFiles(files, ex, date);
    var r := SelectByTime(listed, time);
    if r.Ok? then
      SubsequenceTrans(r.value, listed, files);
      r
    else r
  }

  /** `s.select { |x| keep(x) }`: the elements `keep` accepts, in order, each as often as it occurs. */
  function Filter<T>(s: seq<T>, keep: T -> bool): seq<T>
  {
    if |s| == 0 then []
    else if keep(s[0]) then [s[0]] + Filter(s[1..], keep)
    else Filter(s[1..], keep)
  }

  function GlobTest(dir: string): RecordFile -> bool
  {
    (f: RecordFile) => InGlob(f.path, dir)
  }

  function TimeTest(time: string): RecordFile -> bool
  {
    (f: RecordFile) => MatchesTime(f.path, time) == Ok(true)
  }

  function WantedTest(dir: string, time: string): RecordFile -> bool
  {
    (f: RecordFile) => InGlob(f.path, dir) && MatchesTime(f.path, time) == Ok(true)
  }

  /** The date glob is a plain `select` over the listing. */
  lemma {:induction false} DateFilesFilter(files: seq<RecordFile>, ex: string, date: string)
    ensures DateFiles(files, ex, date) == Filter(files, GlobTest(ex + "/" + date))
    decreases |files|
  {
    if |files| > 0 {
      DateFilesFilter(files[1..], ex, date);
    }
  }

  /** When no file lacks a time, the time filter is a plain `select`. */
  lemma {:induction false} SelectByTimeFilter(files: seq<RecordFile>, time: string)
    ensures SelectByTime(files, time).Ok? ==> SelectByTime(files, time).value == Filter(files, TimeTest(time))
    decreases |files|
  {
    if |files| > 0 {
      SelectByTimeFilter(files[1..], time);
    }
  }

  /** Two selections in a row are one selection by both tests. */
  lemma {:induction false} FilterFilter<T>(s: seq<T>, p: T -> bool, q: T -> bool, pq: T -> bool)
    requires forall x :: pq(x) == (p(x) && q(x))
    ensures Filter(Filter(s, p), q) == Filter(s, pq)
    decreases |s|
  {
    if |s| > 0 {
      FilterFilter(s[1..], p, q, pq);
      if p(s[0]) {
        assert ([s[0]] + Filter(s[1..], p))[1..] == Filter(s[1..], p);
      }
    }
  }

  /**
   * `exception_files_for` keeps exactly the listed files under `ex/date`
   * whose time matches, in listing order and with their multiplicity.
   */
  lemma ExceptionFilesInOrder(files: seq<RecordFile>, ex: string, date: string, time: string)
    ensures var r := ExceptionFilesFor(files, ex, date, time);
            r.Ok? ==> r.value == Filter(files, WantedTest(ex + "/" + date, time))
  {
    var dir := ex + "/" + date;
    DateFilesFilter(files, ex, date);
    SelectByTimeFilter(DateFiles(files, ex, date), time);
    FilterFilter(files, GlobTest(dir), TimeTest(time), WantedTest(dir, time));
  }

  lemma {:induction false} SubsequenceTrans<T>(a: seq<T>, b: seq<T>, c: seq<T>)
    requires Subsequence(a, b) && Subsequence(b, c)
    ensures Subsequence(a, c)
    decreases |c|
  {
    if |a| > 0 && |c| > 0 {
      if b[0] == c[0] {
        if a[0] == b[0] {
          SubsequenceTrans(a[1..], b[1..], c[1..]);
        } else {
          SubsequenceTrans(a, b[1..], c[1..]);
        }
      } else {
        SubsequenceTrans(a, b, c[1..]);
        SubsequenceWeaken(a, c[1..], c[0]);
        assert c == [c[0]] + c[1..];
      }
    }
  }
  /** `T` followed by a `%H:%M:%S` string is a timestamp. */
  lemma ClockStringIsTimestamp(t: int)
    ensures |ClockString(t)| == 8
    ensures TimestampAt("T" + ClockString(t), 0)
  {
    var b := Breakdown(t);
    ClockShape(b.hour, b.minute, b.second);
    var s := "T" + ClockString(t);
    forall k | 0 <= k < TimestampLength
      ensures PatternChar(k, s[k])
    {
      if k > 0 {
        assert s[k] == ClockString(t)[k - 1];
      }
    }
  }

  /**
   * In `p m Tc rest`, where nothing in `p` is a timestamp, `m` starts with a
   * separator and holds no `T`, and `Tc` is one, the first timestamp is `c`.
   */
  lemma FirstTimestamp(p: string, m: string, c: string, rest: string)
    requires forall i: nat :: !TimestampAt(p, i)
    requires |m| >= 1 && m[0] == '/' && 'T' !in m
    requires |c| == 8 && TimestampAt("T" + c, 0)
    ensures EmbeddedTime(p + m + "T" + c + rest) == Some(c)
  {
    var s := p + m + "T" + c + rest;
    var k := |p| + |m|;
    assert s[k..k + TimestampLength] == "T" + c;
    assert TimestampAt(s, k) by {
      forall j | k <= j < k + TimestampLength
        ensures PatternChar(j - k, s[j])
      {
        assert s[j] == ("T" + c)[j - k];
      }
    }
    forall i: nat | i < k
      ensures !TimestampAt(s, i)
    {
      if i < |p| {
        if i + TimestampLength <= |p| {
          if TimestampAt(s, i) {
            assert TimestampAt(p, i) by {
              forall j | i <= j < i + TimestampLength
                ensures PatternChar(j - i, p[j])
              {
                assert p[j] == s[j];
              }
            }
          }
        } else {
          assert s[|p|] == '/';
          assert !PatternChar(|p| - i, s[|p|]);
        }
      } else {
        assert s[i] == m[i - |p|];
        assert !PatternChar(0, s[i]);
      }
    }
    var r := FindTimestamp(s, 0);
    assert r == Some(k);
  }

  /**
   * The record written at `t` carries `t`'s `%H:%M:%S` as its first
   * timestamp, provided the directory part before the date does not already
   * hold one.
   */
  lemma RecordTimestamp(exceptionsDir: string, className: string, t: int)
    requires forall i: nat :: !TimestampAt(exceptionsDir + "/" + EncodeTypeName(className), i)
    ensures EmbeddedTime(RecordPath(exceptionsDir, className, t)) == Some(ClockString(t))
  {
    var p := exceptionsDir + "/" + EncodeTypeName(className);
    var m := DatedDirs(t);
    DatedDirsHaveNoT(t);
    ClockStringIsTimestamp(t);
    var rest := "." + NatToString(t % 1000) + ".txt";
    RecordPathParts(exceptionsDir, className, t);
    FirstTimestamp(p, m, ClockString(t), rest);
  }

  lemma RecordPathParts(exceptionsDir: string, className: string, t: int)
    ensures RecordPath(exceptionsDir, className, t)
            == exceptionsDir + "/" + EncodeTypeName(className) + DatedDirs(t) + "T" + ClockString(t)
               + ("." + NatToString(t % 1000) + ".txt")
  {
    Regroup(exceptionsDir + "/" + EncodeTypeName(className), DateString(t), HourString(t), ClockString(t),
            NatToString(t % 1000), "/", "T", ".", ".txt");
  }

  lemma Regroup(p: string, d: string, h: string, c: string, n: string, sl: string, tt: string, e1: string, e2: string)
    ensures p + sl + d + sl + h + sl + (d + tt + c + e1 + n + e2)
            == p + (sl + d + sl + h + sl + d) + tt + c + (e1 + n + e2)
  {
  }

  /** What a record path holds between the type directory and the `T` of its file name. */
  function DatedDirs(t: int): string
  {
    "/" + DateString(t) + "/" + HourString(t) + "/" + DateString(t)
  }

  lemma DatedDirsHaveNoT(t: int)
    ensures |DatedDirs(t)| >= 1 && DatedDirs(t)[0] == '/' && 'T' !in DatedDirs(t)
  {
    var d := DateString(t);
    var h := HourString(t);
    DateStringChars(t);
    HourStringChars(t);
    assert 'T' !in d;
    assert 'T' !in h;
    assert DatedDirs(t) == "/" + d + "/" + h + "/" + d;
  }

  /**
   * Against a window start `MinuteString(u)`, a record written at `t` is
   * kept exactly when its time of day is not before the minute holding `u`.
   */
  lemma RecordMatchesWindow(exceptionsDir: string, className: string, t: int, u: int)
    requires forall i: nat :: !TimestampAt(exceptionsDir + "/" + EncodeTypeName(className), i)
    ensures MatchesTime(RecordPath(exceptionsDir, className, t), MinuteString(u))
            == Ok(t % SecondsPerDay >= u % SecondsPerDay / 60 * 60)
  {
    RecordTimestamp(exceptionsDir, className, t);
    var a := Breakdown(t);
    var b := Breakdown(u);
    ClockOrder(a.hour, a.minute, a.second, b.hour, b.minute, 0);
    BreakdownParts(t);
    MinuteFloor(u);
  }

  /** Every timestamp is at or after midnight: against `00:00:00` nothing with a time is dropped. */
  lemma MidnightMatchesAll(file: string)
    requires EmbeddedTime(file).Some?
    ensures MatchesTime(file, "00:00:00") == Ok(true)
  {
    var i: nat :| TimestampAt(file, i) && EmbeddedTime(file).value == file[i + 1..i + TimestampLength];
    var hms := EmbeddedTime(file).value;
    var midnight := "00:00:00";
    forall k | 0 <= k < |midnight|
      ensures hms[k] >= midnight[k]
    {
      assert hms[k] == file[i + 1 + k];
      assert PatternChar(k + 1, file[i + 1 + k]);
    }
    NotLexLessPointwise(hms, midnight);
  }
  /** A record's file name is a visible name a glob `*` matches. */
  lemma RecordFileNameIsGlobName(t: int)
    ensures GlobName(RecordFileName(t))
  {
    DateStringChars(t);
    ClockStringChars(t);
    FileNameOf(DateString(t), ClockString(t), NatToString(t % 1000));
  }

  lemma FileNameOf(d: string, c: string, n: string)
    requires |d| >= 1 && d[0] != '.'
    requires '/' !in d && '/' !in c && '/' !in n
    ensures GlobName(d + "T" + c + "." + n + ".txt")
  {
    var f := d + "T" + c + "." + n + ".txt";
    assert f[0] == d[0];
  }

  /** A path `x/d/...` does not lie under `x/d'/` unless `d` and `d'` are the same segment. */
  lemma SegmentPrefix(x: string, d: string, d': string, rest: string)
    requires '/' !in d && '/' !in d'
    requires |x| + |d'| + 2 <= |x + "/" + d + "/" + rest|
    requires (x + "/" + d + "/" + rest)[..|x| + |d'| + 2] == x + "/" + d' + "/"
    ensures d == d'
  {
    var path := x + "/" + d + "/" + rest;
    var pre := x + "/" + d' + "/";
    var k := |x| + 1;
    var m := if |d| < |d'| then |d| else |d'|;
    assert path[k + m] == pre[k + m];
    assert path[k + m] == '/' <==> m == |d|;
    assert pre[k + m] == '/' <==> m == |d'|;
    assert d == path[k..k + |d|] == pre[k..k + |d'|] == d';
  }

  /**
   * The record written at `t` lies in the day directory globbed for the
   * date of `u` exactly when `t` and `u` fall on the same day.
   */
  lemma RecordInDateGlob(exceptionsDir: string, className: string, t: int, u: int)
    ensures InGlob(RecordPath(exceptionsDir, className, t),
                   exceptionsDir + "/" + EncodeTypeName(className) + "/" + DateString(u))
            <==> t / SecondsPerDay == u / SecondsPerDay
  {
    DateStringSameDay(t, u);
    DateStringChars(t);
    DateStringChars(u);
    HourStringChars(t);
    RecordFileNameIsGlobName(t);
    DayGlob(exceptionsDir + "/" + EncodeTypeName(className), DateString(t), DateString(u),
            HourString(t), RecordFileName(t));
  }

  /** `x/d/h/f`, for visible names `h` and `f`, lies under `x/d'` exactly when `d == d'`. */
  lemma DayGlob(x: string, d: string, d': string, h: string, f: string)
    requires '/' !in d && '/' !in d'
    requires |h| >= 1 && AllDigits(h) && GlobName(f)
    ensures InGlob(x + "/" + d + "/" + h + "/" + f, x + "/" + d') <==> d == d'
  {
    var path := x + "/" + d + "/" + h + "/" + f;
    assert GlobName(h) by {
      assert '/' !in h;
      assert IsDigit(h[0]);
    }
    if d == d' {
      InGlobOf(x + "/" + d, h, f);
    } else if InGlob(path, x + "/" + d') {
      assert path == x + "/" + d + "/" + (h + "/" + f);
      SegmentPrefix(x, d, d', h + "/" + f);
    }
  }

  /** Within one day, "not before the minute holding `u`" is a plain comparison of instants. */
  lemma SameDayWindow(t: int, u: int)
    requires t / SecondsPerDay == u / SecondsPerDay
    ensures t % SecondsPerDay >= u % SecondsPerDay / 60 * 60 <==> t >= u / 60 * 60
  {
    var q := u / SecondsPerDay;
    var r := u % SecondsPerDay;
    assert u == q * SecondsPerDay + r;
    assert t == q * SecondsPerDay + t % SecondsPerDay;
    assert u == (q * 1440 + r / 60) * 60 + r % 60;
    assert u / 60 == q * 1440 + r / 60;
    assert u / 60 * 60 == q * SecondsPerDay + r / 60 * 60;
  }

  /**
   * `exception_files_for` with the window of `u` (date `%Y-%m-%d` of `u`,
   * time `%H:%M:00` of `u`) keeps the record written at `t` exactly when `t`
   * lies on `u`'s day and is not before the minute holding `u`.
   */
  lemma RecordSelection(files: seq<RecordFile>, exceptionsDir: string, className: string,
                        t: int, lines: seq<string>, u: int)
    requires forall i: nat :: !TimestampAt(exceptionsDir + "/" + EncodeTypeName(className), i)
    requires RecordFile(RecordPath(exceptionsDir, className, t), lines) in files
    requires ExceptionFilesFor(files, exceptionsDir + "/" + EncodeTypeName(className),
                               DateString(u), MinuteString(u)).Ok?
    ensures RecordFile(RecordPath(exceptionsDir, className, t), lines)
              in ExceptionFilesFor(files, exceptionsDir + "/" + EncodeTypeName(className),
                                   DateString(u), MinuteString(u)).value
            <==> t / SecondsPerDay == u / SecondsPerDay && t >= u / 60 * 60
  {
    RecordInDateGlob(exceptionsDir, className, t, u);
    RecordMatchesWindow(exceptionsDir, className, t, u);
    if t / SecondsPerDay == u / SecondsPerDay {
      SameDayWindow(t, u);
    }
  }
}
