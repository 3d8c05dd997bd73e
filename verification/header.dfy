/**
 * Reading a record's header and the category in it (`get_header`,
 * `get_category`). A record file is given as its lines, each with its line
 * terminator, as `File#each` yields them.
 */
module Header {
  import opened Wrappers
  import opened Text

  /** A line whose first four characters are `----` ends the header (`'----' == line[0,4]`). */
  predicate IsDelimiter(line: string)
  {
    |line| >= 4 && line[..4] == "----"
  }

  /** Index of the first delimiter line, or the number of lines when there is none. */
  function FirstDelimiter(lines: seq<string>): (k: nat)
    ensures k <= |lines|
    ensures forall i :: 0 <= i < k ==> !IsDelimiter(lines[i])
    ensures k < |lines| ==> IsDelimiter(lines[k])
  {
    if |lines| == 0 || IsDelimiter(lines[0]) then 0 else 1 + FirstDelimiter(lines[1..])
  }

  /** The header text: the lines read before the loop meets a delimiter. */
  function HeaderText(lines: seq<string>): (text: string)
    ensures text == Concat(lines[..FirstDelimiter(lines)])
  {
    if |lines| == 0 || IsDelimiter(lines[0]) then ""
    else
      assert lines[..FirstDelimiter(lines)] == [lines[0]] + lines[1..][..FirstDelimiter(lines[1..])];
      lines[0] + HeaderText(lines[1..])
  }

  /**
   * `get_header`: the text before the first delimiter line (the whole file
   * without one), or exactly `empty` when that text is blank.
   */
  function GetHeader(lines: seq<string>): (header: string)
    ensures IsBlank(Concat(lines[..FirstDelimiter(lines)])) ==> header == "empty"
    ensures !IsBlank(Concat(lines[..FirstDelimiter(lines)])) ==>
              header == Concat(lines[..FirstDelimiter(lines)])
    ensures !IsBlank(header)
  {
    var text := HeaderText(lines);
    if IsBlank(text) then
      assert !IsStripSpace("empty"[0]);
      "empty"
    else text
  }

  /** Lines after the first delimiter never reach the header. */
  lemma HeaderIgnoresRest(head: seq<string>, delimiter: string, rest: seq<string>)
    requires forall i :: 0 <= i < |head| ==> !IsDelimiter(head[i])
    requires IsDelimiter(delimiter)
    ensures GetHeader(head + [delimiter] + rest) == GetHeader(head)
  {
    var lines := head + [delimiter] + rest;
    FirstDelimiterOf(head, delimiter, rest);
    assert lines[..|head|] == head;
    assert head[..FirstDelimiter(head)] == head;
  }

  lemma FirstDelimiterOf(head: seq<string>, delimiter: string, rest: seq<string>)
    requires forall i :: 0 <= i < |head| ==> !IsDelimiter(head[i])
    requires IsDelimiter(delimiter)
    ensures FirstDelimiter(head + [delimiter] + rest) == |head|
    ensures FirstDelimiter(head) == |head|
  {
    var lines := head + [delimiter] + rest;
    assert lines[|head|] == delimiter;
  }

  /** The phrase the category follows. */
  const Marker: string := "occurred in "

  /** The phrase starts at `i`. */
  predicate PhraseAt(text: string, i: nat)
  {
    i + |Marker| <= |text| && text[i..i + |Marker|] == Marker
  }

  /** `/occurred in ([^:]+)/` matches at `i`: the phrase, then at least one character other than `:`. */
  predicate MatchAt(text: string, i: nat)
  {
    PhraseAt(text, i) && i + |Marker| < |text| && text[i + |Marker|] != ':'
  }

  /** The leftmost match at or after `from`, as `scan` finds it. */
  function FindMatch(text: string, from: nat): (r: Option<nat>)
    ensures r.Some? ==> from <= r.value && MatchAt(text, r.value)
    ensures r.Some? ==> forall i :: from <= i < r.value ==> !MatchAt(text, i)
    ensures r.None? ==> forall i :: from <= i ==> !MatchAt(text, i)
    decreases |text| - from
  {
    if from + |Marker| >= |text| then None
    else if MatchAt(text, from) then Some(from)
    else FindMatch(text, from + 1)
  }

  /** The greedy `[^:]+`: the longest prefix of `s` without a colon. */
  function UpToColon(s: string): (r: string)
    ensures r <= s
    ensures ':' !in r
    ensures |r| == |s| || s[|r|] == ':'
  {
    if |s| == 0 || s[0] == ':' then "" else [s[0]] + UpToColon(s[1..])
  }

  /**
   * `get_category`: the group of the first match of `occurred in ([^:]+)`,
   * or "" when nothing matches. A match is never empty, stops before the
   * next `:` (or at the end of the text) and follows the leftmost match.
   */
  function GetCategory(text: string): (cat: string)
    ensures cat == "" <==> forall i :: 0 <= i ==> !MatchAt(text, i)
    ensures cat != "" ==>
              exists i :: 0 <= i && MatchAt(text, i) && (forall j :: 0 <= j < i ==> !MatchAt(text, j)) &&
                          var start := i + |Marker|;
                          start + |cat| <= |text| && text[start..start + |cat|] == cat &&
                          (start + |cat| == |text| || text[start + |cat|] == ':')
    ensures ':' !in cat
  {
    match FindMatch(text, 0)
    case None => ""
    case Some(i) =>
      var start := i + |Marker|;
      var cat := UpToColon(text[start..]);
      assert cat[0] == text[start];
      assert text[start..start + |cat|] == cat;
      cat
  }

  /** A header with no `occurred in ` phrase at all has the empty category. */
  lemma NoPhraseNoCategory(text: string)
    requires forall i :: 0 <= i ==> !PhraseAt(text, i)
    ensures GetCategory(text) == ""
  {
  }

  /** The `empty` header of a blank record has the empty category. */
  lemma EmptyHeaderCategory()
    ensures GetCategory("empty") == ""
  {
  }

  /**
   * A header line `... occurred in C: ...` with `C` free of colons gives
   * category `C` when no earlier match exists.
   */
  lemma CategoryOfPhrase(before: string, cat: string, after: string)
    requires cat != "" && ':' !in cat
    requires forall i :: 0 <= i < |before| ==> !MatchAt(before + Marker + cat + ":" + after, i)
    ensures GetCategory(before + Marker + cat + ":" + after) == cat
  {
    var text := before + Marker + cat + ":" + after;
    var b := |before|;
    assert text[b..b + |Marker|] == Marker;
    assert text[b + |Marker|] == cat[0];
    assert MatchAt(text, b);
    var r := FindMatch(text, 0);
    assert r == Some(b);
    var rest := text[b + |Marker|..];
    assert rest == cat + ":" + after;
    UpToColonOf(cat, after);
  }

  lemma {:induction false} UpToColonOf(cat: string, after: string)
    requires ':' !in cat
    ensures UpToColon(cat + ":" + after) == cat
    decreases |cat|
  {
    if |cat| > 0 {
      assert (cat + ":" + after)[1..] == cat[1..] + ":" + after;
      UpToColonOf(cat[1..], after);
    }
  }
}
