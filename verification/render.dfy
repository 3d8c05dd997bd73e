/**
 * The HTML report (`html`, and `generate_html` in the older reporter): a
 * summary table with one row per exception type in non-increasing count
 * order, then one section per type with one row per category in
 * non-increasing size order, each showing at most `exceptions_per_method`
 * sample links. The report is first built as a structured document and then
 * laid out as lines joined by newlines.
 */
module Render {
  import opened Text
  import opened Urls
  import opened Aggregate
  import opened Sorting

  /** `<a href='href'>text</a>`. */
  datatype Link = Link(href: string, text: string)

  /** One detail row: the category, how many records it holds, and the sample links. */
  datatype Row = Row(category: string, size: nat, links: seq<Link>)

  /** The detail section of one exception type. */
  datatype Section = Section(exception: string, rows: seq<Row>)

  /** One row of the summary table. */
  datatype SummaryRow = SummaryRow(exception: string, dir: string, count: nat)

  datatype Report = Report(summary: seq<SummaryRow>, sections: seq<Section>)

  function Min(a: nat, b: nat): nat
  {
    if a <= b then a else b
  }

  /** `list[0, n].map { |u| ... }`: links to the first `n` URLs, each named by its last segment. */
  function Links(urls: seq<string>, n: nat): (r: seq<Link>)
    ensures |r| == Min(n, |urls|)
    ensures forall k :: 0 <= k < |r| ==> r[k].href == urls[k] && r[k].text == LinkText(urls[k])
  {
    if |urls| == 0 || n == 0 then []
    else [Link(urls[0], LinkText(urls[0]))] + Links(urls[1..], n - 1)
  }

  function ListSize(l: CategoryList): int
  {
    |l.urls|
  }

  function EntryCount(e: Entry): int
  {
    e.count
  }

  function RowOf(l: CategoryList, n: nat): Row
  {
    Row(l.category, |l.urls|, Links(l.urls, n))
  }

  function SummaryOf(e: Entry): SummaryRow
  {
    SummaryRow(e.exception, e.dir, e.count)
  }

  function RowsOf(lists: seq<CategoryList>, n: nat): (rows: seq<Row>)
    ensures |rows| == |lists|
    ensures forall j :: 0 <= j < |rows| ==> rows[j] == RowOf(lists[j], n)
  {
    if |lists| == 0 then [] else [RowOf(lists[0], n)] + RowsOf(lists[1..], n)
  }

  /**
   * The section of entry `e`: its category lists (the non-symbol keys of
   * `cat2list`) in non-increasing size order, each as a row.
   */
  function SectionOf(e: Entry, n: nat): Section
  {
    Section(e.exception, RowsOf(SortDesc(e.lists, ListSize), n))
  }

  function SummariesOf(agg: seq<Entry>): (summary: seq<SummaryRow>)
    ensures |summary| == |agg|
    ensures forall k :: 0 <= k < |summary| ==> summary[k] == SummaryOf(agg[k])
  {
    if |agg| == 0 then [] else [SummaryOf(agg[0])] + SummariesOf(agg[1..])
  }

  function SectionsOf(agg: seq<Entry>, n: nat): (sections: seq<Section>)
    ensures |sections| == |agg|
    ensures forall k :: 0 <= k < |sections| ==> sections[k] == SectionOf(agg[k], n)
  {
    if |agg| == 0 then [] else [SectionOf(agg[0], n)] + SectionsOf(agg[1..], n)
  }

  /**
   * The report of an aggregate: `@ex2cat2list.keys` in non-increasing count
   * order, each with its summary row and its section at the same position.
   */
  function MakeReport(agg: seq<Entry>, n: nat): Report
  {
    var sorted := SortDesc(agg, EntryCount);
    Report(SummariesOf(sorted), SectionsOf(sorted, n))
  }

  /** A section's rows are in non-increasing size order, one per category list. */
  lemma SectionOrder(e: Entry, n: nat)
    ensures var s := SectionOf(e, n);
            s.exception == e.exception && |s.rows| == |e.lists| &&
            forall j, j' :: 0 <= j < j' < |s.rows| ==> s.rows[j].size >= s.rows[j'].size
  {
    var sorted := SortDesc(e.lists, ListSize);
    var rows := RowsOf(sorted, n);
    forall j, j' | 0 <= j < j' < |rows|
      ensures rows[j].size >= rows[j'].size
    {
      assert ListSize(sorted[j]) >= ListSize(sorted[j']);
    }
  }

  /** Every category list of the entry has its row in the section. */
  lemma SectionCovers(e: Entry, n: nat)
    ensures var s := SectionOf(e, n);
            forall j :: 0 <= j < |e.lists| ==> exists j' :: 0 <= j' < |s.rows| && s.rows[j'] == RowOf(e.lists[j], n)
  {
    var sorted := SortDesc(e.lists, ListSize);
    var rows := RowsOf(sorted, n);
    assert SectionOf(e, n).rows == rows;
    SortMembers(e.lists, ListSize);
    forall j | 0 <= j < |e.lists|
      ensures exists j' :: 0 <= j' < |rows| && rows[j'] == RowOf(e.lists[j], n)
    {
      assert e.lists[j] in sorted;
      var j' :| 0 <= j' < |sorted| && sorted[j'] == e.lists[j];
      assert rows[j'] == RowOf(e.lists[j], n);
    }
  }

  /** Every row of the section is the row of one of the entry's category lists. */
  lemma SectionFrom(e: Entry, n: nat)
    ensures var s := SectionOf(e, n);
            forall j' :: 0 <= j' < |s.rows| ==> exists j :: 0 <= j < |e.lists| && s.rows[j'] == RowOf(e.lists[j], n)
  {
    var sorted := SortDesc(e.lists, ListSize);
    var rows := RowsOf(sorted, n);
    assert SectionOf(e, n).rows == rows;
    SortMembers(e.lists, ListSize);
    forall j' | 0 <= j' < |rows|
      ensures exists j :: 0 <= j < |e.lists| && rows[j'] == RowOf(e.lists[j], n)
    {
      assert sorted[j'] in e.lists;
      var j :| 0 <= j < |e.lists| && e.lists[j] == sorted[j'];
      assert rows[j'] == RowOf(e.lists[j], n);
    }
  }

  /** The summary rows are in non-increasing count order, one per entry, each beside its section. */
  lemma ReportOrder(agg: seq<Entry>, n: nat)
    ensures var r := MakeReport(agg, n);
            |r.summary| == |agg| && |r.sections| == |agg| &&
            (forall k :: 0 <= k < |r.summary| ==> r.sections[k].exception == r.summary[k].exception) &&
            forall k, k' :: 0 <= k < k' < |r.summary| ==> r.summary[k].count >= r.summary[k'].count
  {
    var sorted := SortDesc(agg, EntryCount);
    var summary := SummariesOf(sorted);
    forall k, k' | 0 <= k < k' < |summary|
      ensures summary[k].count >= summary[k'].count
    {
      assert EntryCount(sorted[k]) >= EntryCount(sorted[k']);
    }
  }

  /**
   * The report renders the entries of the aggregate, each exactly as often
   * as it occurs there, in some non-increasing count order: which order
   * among equal counts is not promised.
   */
  lemma ReportPermutes(agg: seq<Entry>, n: nat)
    ensures exists p :: multiset(p) == multiset(agg) && NonIncreasing(p, EntryCount) &&
                        MakeReport(agg, n) == Report(SummariesOf(p), SectionsOf(p, n))
  {
    var p := SortDesc(agg, EntryCount);
    assert MakeReport(agg, n) == Report(SummariesOf(p), SectionsOf(p, n));
  }

  /** Likewise a section renders the entry's category lists in some non-increasing size order. */
  lemma SectionPermutes(e: Entry, n: nat)
    ensures exists p :: multiset(p) == multiset(e.lists) && NonIncreasing(p, ListSize) &&
                        SectionOf(e, n) == Section(e.exception, RowsOf(p, n))
  {
    var p := SortDesc(e.lists, ListSize);
    assert SectionOf(e, n) == Section(e.exception, RowsOf(p, n));
  }

  // The layout, line by line.

  const TableOpen: string := "<table border='1' width='100%'>"
  const SummaryHeader: string := "<tr><th>Exception</th>" + "<th>Dir</th>" + "<th>Count</th></tr>"

  /** A summary row; the `Dir` cell has no closing `</td>`, as in the original markup. */
  function SummaryLine(s: SummaryRow): string
  {
    "<tr><td><a href='#" + s.exception + "'>" + s.exception + "</a></td><td><a href='" + s.dir
      + "/'>link</a><td>" + NatToString(s.count) + "</td></tr>"
  }

  function Anchor(l: Link): string
  {
    "<a href='" + l.href + "'>" + l.text + "</a>"
  }

  /** The sample links of a row, joined with `<br/>`. */
  function LinksLine(links: seq<Link>): string
  {
    Join(Anchors(links), "<br/>")
  }

  function Anchors(links: seq<Link>): (r: seq<string>)
    ensures |r| == |links|
    ensures forall k :: 0 <= k < |r| ==> r[k] == Anchor(links[k])
  {
    if |links| == 0 then [] else [Anchor(links[0])] + Anchors(links[1..])
  }

  function RowLines(r: Row): seq<string>
  {
    ["<tr>", "<td nowrap>" + r.category + "&nbsp;</td>", "<td>" + NatToString(r.size) + "</td>",
     "<td>", LinksLine(r.links), "</td>", "</tr>"]
  }

  function RowsLines(rows: seq<Row>): (lines: seq<string>)
    ensures |lines| == 7 * |rows|
  {
    if |rows| == 0 then [] else RowLines(rows[0]) + RowsLines(rows[1..])
  }

  function SectionLines(s: Section): seq<string>
  {
    ["<hr/>", "<a name='" + s.exception + "'>" + s.exception + "</a> (<a href='#top'>top</a>)", TableOpen]
      + RowsLines(s.rows) + ["</table>"]
  }

  function SectionsLines(sections: seq<Section>): seq<string>
  {
    if |sections| == 0 then [] else SectionLines(sections[0]) + SectionsLines(sections[1..])
  }

  function SummaryLines(summary: seq<SummaryRow>): (lines: seq<string>)
    ensures |lines| == |summary|
    ensures forall k :: 0 <= k < |lines| ==> lines[k] == SummaryLine(summary[k])
  {
    if |summary| == 0 then [] else [SummaryLine(summary[0])] + SummaryLines(summary[1..])
  }

  /** Every line the report emits, in order. */
  function Lines(r: Report): seq<string>
  {
    ["<html>", "<a name='top'/>", TableOpen, SummaryHeader] + SummaryLines(r.summary) + ["</table>"]
      + SectionsLines(r.sections) + ["</html>"]
  }

  /** `html.join("\n")`. */
  function Html(r: Report): string
  {
    Join(Lines(r), "\n")
  }

  /** The summary table comes first: its rows follow the four opening lines, in report order. */
  lemma LinesLayout(r: Report)
    ensures var lines := Lines(r);
            |lines| >= 6 + |r.summary| &&
            lines[0] == "<html>" && lines[|lines| - 1] == "</html>" &&
            lines[1] == "<a name='top'/>" && lines[2] == TableOpen && lines[3] == SummaryHeader &&
            (forall k :: 0 <= k < |r.summary| ==> lines[4 + k] == SummaryLine(r.summary[k])) &&
            lines[4 + |r.summary|] == "</table>"
  {
    var head := ["<html>", "<a name='top'/>", TableOpen, SummaryHeader];
    Layout(head, SummaryLines(r.summary), "</table>", SectionsLines(r.sections), "</html>");
  }

  /** Where the parts of `a + b + [c] + d + [e]` sit. */
  lemma Layout<T>(a: seq<T>, b: seq<T>, c: T, d: seq<T>, e: T)
    ensures var l := a + b + [c] + d + [e];
            |l| == |a| + |b| + |d| + 2 &&
            (forall k :: 0 <= k < |a| ==> l[k] == a[k]) &&
            (forall k :: 0 <= k < |b| ==> l[|a| + k] == b[k]) &&
            l[|a| + |b|] == c && l[|l| - 1] == e
  {
  }

  /** The report text opens with `<html>` and closes with `</html>`, each on a line of its own. */
  lemma HtmlFrame(r: Report)
    ensures var h := Html(r);
            |h| >= 15 && h[..7] == "<html>\n" && h[|h| - 8..] == "\n</html>"
  {
    var lines := Lines(r);
    JoinFramed(lines, "\n");
    var m := Join(lines[1..|lines| - 1], "\n");
    Framed("<html>", "\n", m, "</html>");
    assert "<html>" + "\n" == "<html>\n";
    assert "\n" + "</html>" == "\n</html>";
  }

  /** Joining three or more lines puts the first and the last each beside one separator. */
  lemma JoinFramed(lines: seq<string>, sep: string)
    requires |lines| >= 3
    ensures Join(lines, sep) == lines[0] + sep + Join(lines[1..|lines| - 1], sep) + sep + lines[|lines| - 1]
  {
    var mid := lines[1..|lines| - 1];
    var last := lines[|lines| - 1];
    assert lines == [lines[0]] + (mid + [last]);
    JoinAppend([lines[0]], mid + [last], sep);
    JoinAppend(mid, [last], sep);
  }

  lemma Framed(a: string, sep: string, m: string, b: string)
    ensures var h := a + sep + m + sep + b;
            h[..|a + sep|] == a + sep && h[|h| - |sep + b|..] == sep + b
  {
  }

  /** No newline in `s`. */
  predicate OneLine(s: string)
  {
    '\n' !in s
  }

  /** No line of `lines` holds a newline. */
  predicate AllOneLine(lines: seq<string>)
  {
    forall i :: 0 <= i < |lines| ==> OneLine(lines[i])
  }

  /** No text the report copies from the records holds a newline. */
  predicate SingleLineText(r: Report)
  {
    && (forall k :: 0 <= k < |r.summary| ==> OneLine(r.summary[k].exception) && OneLine(r.summary[k].dir))
    && (forall k :: 0 <= k < |r.sections| ==> SectionOneLine(r.sections[k]))
  }

  predicate SectionOneLine(s: Section)
  {
    OneLine(s.exception) && forall j :: 0 <= j < |s.rows| ==> RowOneLine(s.rows[j])
  }

  predicate RowOneLine(r: Row)
  {
    OneLine(r.category) &&
    forall k :: 0 <= k < |r.links| ==> OneLine(r.links[k].href) && OneLine(r.links[k].text)
  }

  lemma ConcatOneLine(a: string, b: string)
    requires OneLine(a) && OneLine(b)
    ensures OneLine(a + b)
  {
    forall i | 0 <= i < |a + b|
      ensures (a + b)[i] != '\n'
    {
      if i < |a| {
        assert (a + b)[i] == a[i];
      } else {
        assert (a + b)[i] == b[i - |a|];
      }
    }
  }

  lemma AppendOneLine(xs: seq<string>, ys: seq<string>)
    requires AllOneLine(xs) && AllOneLine(ys)
    ensures AllOneLine(xs + ys)
  {
    forall i | 0 <= i < |xs + ys|
      ensures OneLine((xs + ys)[i])
    {
      if i < |xs| {
        assert (xs + ys)[i] == xs[i];
      } else {
        assert (xs + ys)[i] == ys[i - |xs|];
      }
    }
  }

  lemma {:induction false} JoinOneLine(parts: seq<string>, sep: string)
    requires OneLine(sep) && AllOneLine(parts)
    ensures OneLine(Join(parts, sep))
    decreases |parts|
  {
    if |parts| > 1 {
      JoinOneLine(parts[1..], sep);
      ConcatOneLine(parts[0], sep);
      ConcatOneLine(parts[0] + sep, Join(parts[1..], sep));
    }
  }

  lemma DigitsOneLine(s: string)
    requires AllDigits(s)
    ensures OneLine(s)
  {
    forall i | 0 <= i < |s|
      ensures s[i] != '\n'
    {
      assert IsDigit(s[i]);
    }
  }

  lemma AnchorOneLine(l: Link)
    requires OneLine(l.href) && OneLine(l.text)
    ensures OneLine(Anchor(l))
  {
    ConcatOneLine("<a href='", l.href);
    ConcatOneLine("<a href='" + l.href, "'>");
    ConcatOneLine("<a href='" + l.href + "'>", l.text);
    ConcatOneLine("<a href='" + l.href + "'>" + l.text, "</a>");
  }

  lemma RowLinesOneLine(r: Row)
    requires RowOneLine(r)
    ensures AllOneLine(RowLines(r))
  {
    var anchors := Anchors(r.links);
    forall k | 0 <= k < |anchors|
      ensures OneLine(anchors[k])
    {
      AnchorOneLine(r.links[k]);
    }
    JoinOneLine(anchors, "<br/>");
    DigitsOneLine(NatToString(r.size));
    ConcatOneLine("<td nowrap>", r.category);
    ConcatOneLine("<td nowrap>" + r.category, "&nbsp;</td>");
    ConcatOneLine("<td>", NatToString(r.size));
    ConcatOneLine("<td>" + NatToString(r.size), "</td>");
  }

  lemma {:induction false} RowsLinesOneLine(rows: seq<Row>)
    requires forall j :: 0 <= j < |rows| ==> RowOneLine(rows[j])
    ensures AllOneLine(RowsLines(rows))
    decreases |rows|
  {
    if |rows| > 0 {
      RowLinesOneLine(rows[0]);
      RowsLinesOneLine(rows[1..]);
      AppendOneLine(RowLines(rows[0]), RowsLines(rows[1..]));
    }
  }

  lemma SectionLinesOneLine(s: Section)
    requires SectionOneLine(s)
    ensures AllOneLine(SectionLines(s))
  {
    var x := s.exception;
    var title := "<a name='" + x + "'>" + x + "</a> (<a href='#top'>top</a>)";
    TitleOneLine(x);
    TableOpenOneLine();
    TripleOneLine("<hr/>", title, TableOpen);
    var head := ["<hr/>", title, TableOpen];
    RowsLinesOneLine(s.rows);
    AppendOneLine(head, RowsLines(s.rows));
    SingleOneLine("</table>");
    AppendOneLine(head + RowsLines(s.rows), ["</table>"]);
  }

  lemma TitleOneLine(x: string)
    requires OneLine(x)
    ensures OneLine("<a name='" + x + "'>" + x + "</a> (<a href='#top'>top</a>)")
  {
    ConcatOneLine("<a name='", x);
    ConcatOneLine("<a name='" + x, "'>");
    ConcatOneLine("<a name='" + x + "'>", x);
    ConcatOneLine("<a name='" + x + "'>" + x, "</a> (<a href='#top'>top</a>)");
  }

  lemma TripleOneLine(a: string, b: string, c: string)
    requires OneLine(a) && OneLine(b) && OneLine(c)
    ensures AllOneLine([a, b, c])
  {
  }

  lemma SingleOneLine(a: string)
    requires OneLine(a)
    ensures AllOneLine([a])
  {
  }

  lemma {:induction false} SectionsLinesOneLine(sections: seq<Section>)
    requires forall k :: 0 <= k < |sections| ==> SectionOneLine(sections[k])
    ensures AllOneLine(SectionsLines(sections))
    decreases |sections|
  {
    if |sections| > 0 {
      SectionLinesOneLine(sections[0]);
      SectionsLinesOneLine(sections[1..]);
      AppendOneLine(SectionLines(sections[0]), SectionsLines(sections[1..]));
    }
  }

  lemma SummaryLineOneLine(s: SummaryRow)
    requires OneLine(s.exception) && OneLine(s.dir)
    ensures OneLine(SummaryLine(s))
  {
    var c := NatToString(s.count);
    DigitsOneLine(c);
    ConcatOneLine("<tr><td><a href='#", s.exception);
    ConcatOneLine("<tr><td><a href='#" + s.exception, "'>");
    ConcatOneLine("<tr><td><a href='#" + s.exception + "'>", s.exception);
    ConcatOneLine("<tr><td><a href='#" + s.exception + "'>" + s.exception, "</a></td><td><a href='");
    ConcatOneLine("<tr><td><a href='#" + s.exception + "'>" + s.exception + "</a></td><td><a href='", s.dir);
    ConcatOneLine("<tr><td><a href='#" + s.exception + "'>" + s.exception + "</a></td><td><a href='" + s.dir,
                  "/'>link</a><td>");
    ConcatOneLine("<tr><td><a href='#" + s.exception + "'>" + s.exception + "</a></td><td><a href='" + s.dir
                    + "/'>link</a><td>", c);
    ConcatOneLine("<tr><td><a href='#" + s.exception + "'>" + s.exception + "</a></td><td><a href='" + s.dir
                    + "/'>link</a><td>" + c, "</td></tr>");
  }

  lemma FixedLinesOneLine()
    ensures AllOneLine(["<html>", "<a name='top'/>", TableOpen, SummaryHeader])
    ensures AllOneLine(["</table>"]) && AllOneLine(["</html>"])
  {
    TableOpenOneLine();
    SummaryHeaderOneLine();
  }

  lemma TableOpenOneLine()
    ensures OneLine(TableOpen)
  {
  }

  lemma SummaryHeaderOneLine()
    ensures OneLine(SummaryHeader)
  {
    ConcatOneLine("<tr><th>Exception</th>", "<th>Dir</th>");
    ConcatOneLine("<tr><th>Exception</th>" + "<th>Dir</th>", "<th>Count</th></tr>");
  }

  /**
   * Splitting the report text at newlines gives back exactly the emitted
   * lines, provided no copied name, URL or category holds a newline.
   */
  lemma HtmlLines(r: Report)
    requires SingleLineText(r)
    ensures Fields(Html(r), '\n') == Lines(r)
  {
    var head := ["<html>", "<a name='top'/>", TableOpen, SummaryHeader];
    FixedLinesOneLine();
    var summary := SummaryLines(r.summary);
    forall k | 0 <= k < |summary|
      ensures OneLine(summary[k])
    {
      SummaryLineOneLine(r.summary[k]);
    }
    SectionsLinesOneLine(r.sections);
    AppendOneLine(head, summary);
    AppendOneLine(head + summary, ["</table>"]);
    AppendOneLine(head + summary + ["</table>"], SectionsLines(r.sections));
    AppendOneLine(head + summary + ["</table>"] + SectionsLines(r.sections), ["</html>"]);
    FieldsJoin(Lines(r), '\n');
  }

  /**
   * Every detail row of the report renders one category list of the
   * aggregate; by `Links`, it shows at most `n` of its URLs, the first ones,
   * each named by its last segment.
   */
  lemma ReportRows(agg: seq<Entry>, n: nat, k: nat, j: nat)
    requires k < |agg|
    requires j < |MakeReport(agg, n).sections[k].rows|
    ensures exists i, c :: 0 <= i < |agg| && 0 <= c < |agg[i].lists| &&
              MakeReport(agg, n).sections[k].rows[j] == RowOf(agg[i].lists[c], n)
  {
    var p := SortDesc(agg, EntryCount);
    assert MakeReport(agg, n).sections[k] == SectionOf(p[k], n);
    assert p[k] in multiset(agg);
    var i :| 0 <= i < |agg| && agg[i] == p[k];
    SectionFrom(agg[i], n);
    var s := SectionOf(agg[i], n);
    var c :| 0 <= c < |agg[i].lists| && s.rows[j] == RowOf(agg[i].lists[c], n);
  }
}
