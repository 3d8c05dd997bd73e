/**
 * The public URLs the reporter derives from record paths (`file_to_url`),
 * the representative directory of an exception type, and the visible text
 * of a sample link.
 */
module Urls {
  import opened Text

  /**
   * `path.split('/', strip + 1).last`: the path without its first `strip`
   * `/`-separated segments; a path with fewer separators keeps its last
   * segment, and `strip = 0` keeps the whole path.
   */
  function StripSegments(path: string, strip: nat): (r: string)
    ensures var f := Fields(path, '/');
            r == Join(f[KeptFields(strip + 1, |f|)..], "/")
    ensures strip == 0 ==> r == path
  {
    var parts := SplitLimit(path, '/', strip + 1);
    if |parts| == 0 then
      EmptyPathFields();
      ""
    else
      LastLimitField(path, strip);
      parts[|parts| - 1]
  }

  lemma EmptyPathFields()
    ensures Fields("", '/') == [""]
  {
  }

  /** The last field of a limited split of a non-empty path joins the fields it did not split off. */
  lemma LastLimitField(path: string, strip: nat)
    requires path != ""
    ensures var parts := SplitLimit(path, '/', strip + 1);
            var f := Fields(path, '/');
            |parts| >= 1 && parts[|parts| - 1] == Join(f[KeptFields(strip + 1, |f|)..], "/")
    ensures strip == 0 ==> var parts := SplitLimit(path, '/', strip + 1); parts[|parts| - 1] == path
  {
    var f := Fields(path, '/');
    LimitFieldsAreFields(path, '/', strip + 1);
    if strip == 0 {
      JoinFields(path, '/');
      assert f[0..] == f;
    }
  }

  /** `"http://#{hostname}/#{file.split('/', strip + 1).last}"`. */
  function FileToUrl(hostname: string, strip: nat, file: string): (url: string)
    ensures url == "http://" + hostname + "/" + StripSegments(file, strip)
    ensures strip == 0 ==> url == "http://" + hostname + "/" + file
  {
    "http://" + hostname + "/" + StripSegments(file, strip)
  }

  /**
   * Stripping as many segments as a path has leading directory names leaves
   * what follows them.
   */
  lemma StripLeadingSegments(prefix: seq<string>, rest: string)
    requires forall i :: 0 <= i < |prefix| ==> '/' !in prefix[i]
    ensures StripSegments(Join(prefix + [rest], "/"), |prefix|) == rest
  {
    var path := Join(prefix + [rest], "/");
    var fr := Fields(rest, '/');
    var f := Fields(path, '/');
    JoinFields(rest, '/');
    if |prefix| == 0 {
      assert prefix + [rest] == [rest];
      assert path == rest;
    } else {
      FieldsOfJoin(prefix, rest);
      assert f == prefix + fr;
      assert KeptFields(|prefix| + 1, |f|) == |prefix|;
      assert f[|prefix|..] == fr;
    }
  }

  lemma FieldsOfJoin(prefix: seq<string>, rest: string)
    requires |prefix| >= 1
    requires forall i :: 0 <= i < |prefix| ==> '/' !in prefix[i]
    ensures Fields(Join(prefix + [rest], "/"), '/') == prefix + Fields(rest, '/')
  {
    var fr := Fields(rest, '/');
    JoinFields(rest, '/');
    JoinAppend(prefix, [rest], "/");
    JoinAppend(prefix, fr, "/");
    assert Join(prefix + [rest], "/") == Join(prefix + fr, "/");
    FieldsJoin(prefix + fr, '/');
  }

  /** `url.split('/')[0..-3].join('/')`: the URL without its last two segments. */
  function DirOf(url: string): string
  {
    var parts := Split(url, '/');
    Join(if |parts| >= 2 then parts[..|parts| - 2] else [], "/")
  }

  /** The directory of `d/a/b` is `d` when `b` is a non-empty last segment. */
  lemma DirOfDropsLastTwo(d: string, a: string, b: string)
    requires '/' !in a && '/' !in b && b != ""
    ensures DirOf(d + "/" + a + "/" + b) == d
  {
    var x := d + ['/'] + a;
    assert d + "/" + a + "/" + b == x + ['/'] + b;
    LastFieldOf(x, b, '/');
    FieldsSnoc(d, a, '/');
    DirOfParts(x + ['/'] + b, Fields(d, '/'), a, b);
    JoinFields(d, '/');
  }

  /** A url splitting into `f` and two more segments has `f` joined as its directory. */
  lemma DirOfParts(url: string, f: seq<string>, a: string, b: string)
    requires Split(url, '/') == f + [a] + [b]
    ensures DirOf(url) == Join(f, "/")
  {
    var parts := Split(url, '/');
    assert parts[..|parts| - 2] == f;
  }

  /** `url.split('/').last`: the visible text of a sample link. */
  function LinkText(url: string): (text: string)
    ensures '/' !in text
  {
    var parts := Split(url, '/');
    if |parts| == 0 then "" else parts[|parts| - 1]
  }

  /** The link text of `d/b` is its last segment `b`. */
  lemma LinkTextIsLastSegment(d: string, b: string)
    requires '/' !in b && b != ""
    ensures LinkText(d + "/" + b) == b
  {
    LastFieldOf(d, b, '/');
  }
}
