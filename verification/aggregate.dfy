/**
 * The aggregate `process_dir` builds (`@ex2cat2list`): for every exception
 * type a count, a directory URL and the URLs of its records grouped by
 * category. The model keeps the hash keys in order of first insertion, so
 * the aggregate and each entry's category lists are sequences in that
 * order (the Ruby 1.8 hashes of the source have no defined order); the
 * `:count` and `:dir` keys are symbols and never collide with a category.
 */
module Aggregate {
  import opened Wrappers
  import opened Urls

  /** What one record file contributes: its exception type, its URL and its category. */
  datatype Record = Record(exception: string, url: string, category: string)

  /** `cat2list[category]`: the URLs appended under one category, in order. */
  datatype CategoryList = CategoryList(category: string, urls: seq<string>)

  /** `@ex2cat2list[exception]`: `:count`, `:dir` and the category lists. */
  datatype Entry = Entry(exception: string, count: nat, dir: string, lists: seq<CategoryList>)

  /** Index of the entry for type `x`, if there is one. */
  function FindEntry(agg: seq<Entry>, x: string): (r: Option<nat>)
    ensures r.Some? ==> r.value < |agg| && agg[r.value].exception == x
    ensures r.None? ==> forall i :: 0 <= i < |agg| ==> agg[i].exception != x
  {
    if |agg| == 0 then None
    else if agg[0].exception == x then Some(0)
    else match FindEntry(agg[1..], x)
      case None => None
      case Some(i) => Some(i + 1)
  }

  /** Index of the list for category `c`, if there is one. */
  function FindList(lists: seq<CategoryList>, c: string): (r: Option<nat>)
    ensures r.Some? ==> r.value < |lists| && lists[r.value].category == c
    ensures r.None? ==> forall j :: 0 <= j < |lists| ==> lists[j].category != c
  {
    if |lists| == 0 then None
    else if lists[0].category == c then Some(0)
    else match FindList(lists[1..], c)
      case None => None
      case Some(j) => Some(j + 1)
  }

  /** `(cat2list[c] ||= []) << url`. */
  function AppendUrl(lists: seq<CategoryList>, c: string, url: string): seq<CategoryList>
  {
    match FindList(lists, c)
    case None => lists + [CategoryList(c, [url])]
    case Some(j) => lists[j := CategoryList(c, lists[j].urls + [url])]
  }

  /**
   * One pass of the loop body of `process_dir`: create the entry with count
   * 0 if needed, add one to the count, set `:dir` only if unset, append the
   * URL to its category.
   */
  function Add(agg: seq<Entry>, rec: Record): seq<Entry>
  {
    match FindEntry(agg, rec.exception)
    case None =>
      agg + [Entry(rec.exception, 1, DirOf(rec.url), [CategoryList(rec.category, [rec.url])])]
    case Some(i) => agg[i := Bump(agg[i], rec)]
  }

  /** The entry after one more record of its type: one more in the count, the URL appended. */
  function Bump(e: Entry, rec: Record): Entry
  {
    e.(count := e.count + 1, lists := AppendUrl(e.lists, rec.category, rec.url))
  }

  /** The aggregate after the records are added in order, starting from `{}`. */
  function Build(recs: seq<Record>): seq<Entry>
  {
    if |recs| == 0 then [] else Add(Build(recs[..|recs| - 1]), recs[|recs| - 1])
  }

  // Reference definitions over the record sequence itself.

  /** How many records have type `x`. */
  function CountOf(recs: seq<Record>, x: string): nat
  {
    if |recs| == 0 then 0
    else CountOf(recs[..|recs| - 1], x) + (if recs[|recs| - 1].exception == x then 1 else 0)
  }

  /** The URLs of the records of type `x` and category `c`, in record order. */
  function UrlsOf(recs: seq<Record>, x: string, c: string): seq<string>
  {
    if |recs| == 0 then []
    else
      var last := recs[|recs| - 1];
      UrlsOf(recs[..|recs| - 1], x, c) + (if last.exception == x && last.category == c then [last.url] else [])
  }

  /** The URL of the first record of type `x`. */
  function FirstUrl(recs: seq<Record>, x: string): (r: Option<string>)
    ensures r.None? <==> forall k :: 0 <= k < |recs| ==> recs[k].exception != x
    ensures r.Some? ==> exists k :: 0 <= k < |recs| && recs[k].exception == x && recs[k].url == r.value &&
                                    forall k' :: 0 <= k' < k ==> recs[k'].exception != x
  {
    if |recs| == 0 then None
    else
      var init := recs[..|recs| - 1];
      assert forall k :: 0 <= k < |init| ==> init[k] == recs[k];
      match FirstUrl(init, x)
      case Some(u) => Some(u)
      case None => if recs[|recs| - 1].exception == x then Some(recs[|recs| - 1].url) else None
  }

  /** The number of URLs over all lists. */
  function SumSizes(lists: seq<CategoryList>): nat
  {
    if |lists| == 0 then 0 else SumSizes(lists[..|lists| - 1]) + |lists[|lists| - 1].urls|
  }

  /** The sum of the counts of all entries. */
  function SumCounts(agg: seq<Entry>): nat
  {
    if |agg| == 0 then 0 else SumCounts(agg[..|agg| - 1]) + agg[|agg| - 1].count
  }

  predicate DistinctCategories(lists: seq<CategoryList>)
  {
    forall j, j' :: 0 <= j < j' < |lists| ==> lists[j].category != lists[j'].category
  }

  predicate DistinctTypes(agg: seq<Entry>)
  {
    forall i, i' :: 0 <= i < i' < |agg| ==> agg[i].exception != agg[i'].exception
  }

  /** Some entry has type `x`. */
  predicate HasEntry(agg: seq<Entry>, x: string)
  {
    exists i :: 0 <= i < |agg| && agg[i].exception == x
  }

  /** Some list has category `c`. */
  predicate HasList(lists: seq<CategoryList>, c: string)
  {
    exists j :: 0 <= j < |lists| && lists[j].category == c
  }

  /** Each list holds the URLs of its category, and none is empty. */
  predicate ListsContents(x: string, lists: seq<CategoryList>, recs: seq<Record>)
  {
    forall j :: 0 <= j < |lists| ==> lists[j].urls == UrlsOf(recs, x, lists[j].category) && |lists[j].urls| >= 1
  }

  /** Every category of a record of type `x` has a list. */
  predicate ListsCover(x: string, lists: seq<CategoryList>, recs: seq<Record>)
  {
    forall k :: 0 <= k < |recs| && recs[k].exception == x ==> HasList(lists, recs[k].category)
  }

  /** An entry says of `recs` what the reference definitions say. */
  predicate EntryRepresents(e: Entry, recs: seq<Record>)
  {
    && e.count == CountOf(recs, e.exception)
    && e.count == SumSizes(e.lists)
    && FirstUrl(recs, e.exception).Some?
    && e.dir == DirOf(FirstUrl(recs, e.exception).value)
    && DistinctCategories(e.lists)
    && ListsContents(e.exception, e.lists, recs)
    && ListsCover(e.exception, e.lists, recs)
  }

  predicate AllRepresent(agg: seq<Entry>, recs: seq<Record>)
  {
    forall i :: 0 <= i < |agg| ==> EntryRepresents(agg[i], recs)
  }

  /** Every record's type has an entry. */
  predicate Covers(agg: seq<Entry>, recs: seq<Record>)
  {
    forall k :: 0 <= k < |recs| ==> HasEntry(agg, recs[k].exception)
  }

  /** The aggregate is exactly the grouping of `recs`. */
  predicate Represents(agg: seq<Entry>, recs: seq<Record>)
  {
    DistinctTypes(agg) && AllRepresent(agg, recs) && Covers(agg, recs)
  }

  lemma {:induction false} CountOfNone(recs: seq<Record>, x: string)
    requires forall k :: 0 <= k < |recs| ==> recs[k].exception != x
    ensures CountOf(recs, x) == 0
    decreases |recs|
  {
    if |recs| > 0 {
      CountOfNone(recs[..|recs| - 1], x);
    }
  }

  lemma {:induction false} UrlsOfNone(recs: seq<Record>, x: string, c: string)
    requires forall k :: 0 <= k < |recs| ==> !(recs[k].exception == x && recs[k].category == c)
    ensures UrlsOf(recs, x, c) == []
    decreases |recs|
  {
    if |recs| > 0 {
      UrlsOfNone(recs[..|recs| - 1], x, c);
    }
  }

  lemma {:induction false} SumSizesUpdate(lists: seq<CategoryList>, j: nat, l: CategoryList)
    requires j < |lists|
    ensures SumSizes(lists[j := l]) == SumSizes(lists) - |lists[j].urls| + |l.urls|
    decreases |lists|
  {
    var n := |lists| - 1;
    if j < n {
      assert lists[j := l][..n] == lists[..n][j := l];
      SumSizesUpdate(lists[..n], j, l);
    } else {
      assert lists[j := l][..n] == lists[..n];
    }
  }

  lemma {:induction false} SumCountsUpdate(agg: seq<Entry>, i: nat, e: Entry)
    requires i < |agg|
    ensures SumCounts(agg[i := e]) == SumCounts(agg) - agg[i].count + e.count
    decreases |agg|
  {
    var n := |agg| - 1;
    if i < n {
      assert agg[i := e][..n] == agg[..n][i := e];
      SumCountsUpdate(agg[..n], i, e);
    } else {
      assert agg[i := e][..n] == agg[..n];
    }
  }

  /** The reference definitions of `recs + [rec]`, one record further. */
  lemma Extend(recs: seq<Record>, rec: Record, x: string, c: string)
    ensures CountOf(recs + [rec], x) == CountOf(recs, x) + (if rec.exception == x then 1 else 0)
    ensures UrlsOf(recs + [rec], x, c)
            == UrlsOf(recs, x, c) + (if rec.exception == x && rec.category == c then [rec.url] else [])
    ensures FirstUrl(recs, x).Some? ==> FirstUrl(recs + [rec], x) == FirstUrl(recs, x)
    ensures FirstUrl(recs, x).None? && rec.exception == x ==> FirstUrl(recs + [rec], x) == Some(rec.url)
  {
    assert (recs + [rec])[..|recs|] == recs;
  }

  /** An entry of another type is not affected by a new record. */
  lemma OtherEntry(e: Entry, recs: seq<Record>, rec: Record)
    requires EntryRepresents(e, recs) && rec.exception != e.exception
    ensures EntryRepresents(e, recs + [rec])
  {
    var x := e.exception;
    Extend(recs, rec, x, "");
    forall j | 0 <= j < |e.lists|
      ensures e.lists[j].urls == UrlsOf(recs + [rec], x, e.lists[j].category)
    {
      Extend(recs, rec, x, e.lists[j].category);
    }
    forall k | 0 <= k < |recs + [rec]| && (recs + [rec])[k].exception == x
      ensures HasList(e.lists, (recs + [rec])[k].category)
    {
      assert (recs + [rec])[k] == recs[k];
    }
  }

  lemma AppendUrlContents(x: string, lists: seq<CategoryList>, recs: seq<Record>, rec: Record)
    requires DistinctCategories(lists)
    requires ListsContents(x, lists, recs) && ListsCover(x, lists, recs) && rec.exception == x
    ensures ListsContents(x, AppendUrl(lists, rec.category, rec.url), recs + [rec])
  {
    var c := rec.category;
    var lists' := AppendUrl(lists, c, rec.url);
    forall j | 0 <= j < |lists'|
      ensures lists'[j].urls == UrlsOf(recs + [rec], x, lists'[j].category) && |lists'[j].urls| >= 1
    {
      Extend(recs, rec, x, lists'[j].category);
      if FindList(lists, c).None? && j == |lists| {
        forall k | 0 <= k < |recs|
          ensures !(recs[k].exception == x && recs[k].category == c)
        {
          if recs[k].exception == x {
            assert HasList(lists, recs[k].category);
          }
        }
        UrlsOfNone(recs, x, c);
      }
    }
  }

  lemma AppendUrlCover(x: string, lists: seq<CategoryList>, recs: seq<Record>, rec: Record)
    requires ListsCover(x, lists, recs)
    ensures ListsCover(x, AppendUrl(lists, rec.category, rec.url), recs + [rec])
  {
    var lists' := AppendUrl(lists, rec.category, rec.url);
    var recs' := recs + [rec];
    forall k | 0 <= k < |recs'| && recs'[k].exception == x
      ensures HasList(lists', recs'[k].category)
    {
      if k < |recs| {
        assert recs'[k] == recs[k];
        var j :| 0 <= j < |lists| && lists[j].category == recs[k].category;
        assert lists'[j].category == lists[j].category;
      } else {
        var j := if FindList(lists, rec.category).Some? then FindList(lists, rec.category).value else |lists|;
        assert lists'[j].category == rec.category;
      }
    }
  }

  lemma AppendUrlSizes(lists: seq<CategoryList>, c: string, url: string)
    ensures SumSizes(AppendUrl(lists, c, url)) == SumSizes(lists) + 1
    ensures DistinctCategories(lists) ==> DistinctCategories(AppendUrl(lists, c, url))
  {
    match FindList(lists, c)
    case None =>
      assert AppendUrl(lists, c, url)[..|lists|] == lists;
    case Some(j) =>
      SumSizesUpdate(lists, j, CategoryList(c, lists[j].urls + [url]));
  }

  /** The lists after `AppendUrl` for a record of the entry's type. */
  lemma AppendUrlRepresents(e: Entry, recs: seq<Record>, rec: Record)
    requires EntryRepresents(e, recs) && rec.exception == e.exception
    ensures EntryRepresents(Bump(e, rec), recs + [rec])
  {
    Extend(recs, rec, e.exception, rec.category);
    AppendUrlContents(e.exception, e.lists, recs, rec);
    AppendUrlCover(e.exception, e.lists, recs, rec);
    AppendUrlSizes(e.lists, rec.category, rec.url);
  }

  /** The entry `Add` creates for a type seen for the first time. */
  lemma NewEntry(recs: seq<Record>, rec: Record)
    requires forall k :: 0 <= k < |recs| ==> recs[k].exception != rec.exception
    ensures EntryRepresents(Entry(rec.exception, 1, DirOf(rec.url), [CategoryList(rec.category, [rec.url])]),
                            recs + [rec])
  {
    var x, c := rec.exception, rec.category;
    CountOfNone(recs, x);
    UrlsOfNone(recs, x, c);
    Extend(recs, rec, x, c);
    var lists := [CategoryList(c, [rec.url])];
    assert SumSizes(lists) == 1 by {
      assert lists[..0] == [];
    }
  }

  /** The entry created for a new type, from its first record. */
  function NewEntryOf(rec: Record): Entry
  {
    Entry(rec.exception, 1, DirOf(rec.url), [CategoryList(rec.category, [rec.url])])
  }

  /** Adding a record of a type not seen yet appends its entry. */
  lemma AddNewRepresents(agg: seq<Entry>, recs: seq<Record>, rec: Record)
    requires Represents(agg, recs) && FindEntry(agg, rec.exception).None?
    ensures Represents(Add(agg, rec), recs + [rec])
  {
    assert Add(agg, rec) == agg + [NewEntryOf(rec)];
    NoEarlierRecord(agg, recs, rec.exception);
    AddNewEntries(agg, recs, rec);
    AddNewCovers(agg, recs, rec);
    AddNewDistinct(agg, NewEntryOf(rec));
  }

  lemma NoEarlierRecord(agg: seq<Entry>, recs: seq<Record>, x: string)
    requires Covers(agg, recs) && FindEntry(agg, x).None?
    ensures forall k :: 0 <= k < |recs| ==> recs[k].exception != x
  {
    forall k | 0 <= k < |recs|
      ensures recs[k].exception != x
    {
      assert HasEntry(agg, recs[k].exception);
    }
  }

  lemma AddNewDistinct(agg: seq<Entry>, e: Entry)
    requires DistinctTypes(agg)
    requires forall i :: 0 <= i < |agg| ==> agg[i].exception != e.exception
    ensures DistinctTypes(agg + [e])
  {
  }

  lemma AddNewEntries(agg: seq<Entry>, recs: seq<Record>, rec: Record)
    requires AllRepresent(agg, recs)
    requires forall i :: 0 <= i < |agg| ==> agg[i].exception != rec.exception
    requires forall k :: 0 <= k < |recs| ==> recs[k].exception != rec.exception
    ensures AllRepresent(agg + [NewEntryOf(rec)], recs + [rec])
  {
    var agg' := agg + [NewEntryOf(rec)];
    NewEntry(recs, rec);
    forall i | 0 <= i < |agg'|
      ensures EntryRepresents(agg'[i], recs + [rec])
    {
      if i < |agg| {
        OtherEntry(agg[i], recs, rec);
      }
    }
  }

  lemma AddNewCovers(agg: seq<Entry>, recs: seq<Record>, rec: Record)
    requires Covers(agg, recs)
    ensures Covers(agg + [NewEntryOf(rec)], recs + [rec])
  {
    var agg' := agg + [NewEntryOf(rec)];
    var recs' := recs + [rec];
    forall k | 0 <= k < |recs'|
      ensures HasEntry(agg', recs'[k].exception)
    {
      if k < |recs| {
        assert recs'[k] == recs[k];
        var i :| 0 <= i < |agg| && agg[i].exception == recs[k].exception;
        assert agg'[i] == agg[i];
      } else {
        assert agg'[|agg|].exception == rec.exception;
      }
    }
  }

  /** Adding a record of a type already seen updates that entry only. */
  lemma ExistingStep(agg: seq<Entry>, recs: seq<Record>, rec: Record, i: nat)
    requires DistinctTypes(agg) && AllRepresent(agg, recs) && Covers(agg, recs)
    requires i < |agg| && agg[i].exception == rec.exception
    ensures Represents(agg[i := Bump(agg[i], rec)], recs + [rec])
  {
    var e' := Bump(agg[i], rec);
    AddExistingEntries(agg, recs, rec, i);
    AddExistingCovers(agg, recs, rec, i, e');
    UpdateDistinct(agg, i, e');
  }

  lemma AddExisting(agg: seq<Entry>, rec: Record)
    requires FindEntry(agg, rec.exception).Some?
    ensures var i := FindEntry(agg, rec.exception).value;
            Add(agg, rec) == agg[i := Bump(agg[i], rec)]
  {
  }

  lemma AddExistingEntries(agg: seq<Entry>, recs: seq<Record>, rec: Record, i: nat)
    requires DistinctTypes(agg) && AllRepresent(agg, recs)
    requires i < |agg| && agg[i].exception == rec.exception
    ensures AllRepresent(agg[i := Bump(agg[i], rec)], recs + [rec])
  {
    var e := agg[i];
    var agg' := agg[i := Bump(e, rec)];
    AppendUrlRepresents(e, recs, rec);
    forall i' | 0 <= i' < |agg'|
      ensures EntryRepresents(agg'[i'], recs + [rec])
    {
      if i' != i {
        OtherEntry(agg[i'], recs, rec);
      }
    }
  }

  lemma AddExistingCovers(agg: seq<Entry>, recs: seq<Record>, rec: Record, i: nat, e': Entry)
    requires Covers(agg, recs) && i < |agg| && e'.exception == agg[i].exception == rec.exception
    ensures Covers(agg[i := e'], recs + [rec])
  {
    var agg' := agg[i := e'];
    var recs' := recs + [rec];
    forall k | 0 <= k < |recs'|
      ensures HasEntry(agg', recs'[k].exception)
    {
      if k < |recs| {
        assert recs'[k] == recs[k];
        var i' :| 0 <= i' < |agg| && agg[i'].exception == recs[k].exception;
        assert agg'[i'].exception == agg[i'].exception;
      } else {
        assert agg'[i].exception == rec.exception;
      }
    }
  }

  lemma UpdateDistinct(agg: seq<Entry>, i: nat, e': Entry)
    requires DistinctTypes(agg) && i < |agg| && e'.exception == agg[i].exception
    ensures DistinctTypes(agg[i := e'])
  {
    var agg' := agg[i := e'];
    forall j, j' | 0 <= j < j' < |agg'|
      ensures agg'[j].exception != agg'[j'].exception
    {
      assert agg'[j].exception == agg[j].exception;
      assert agg'[j'].exception == agg[j'].exception;
    }
  }

  /** Adding one record adds one to the total count. */
  lemma AddTotal(agg: seq<Entry>, rec: Record)
    ensures SumCounts(Add(agg, rec)) == SumCounts(agg) + 1
  {
    match FindEntry(agg, rec.exception)
    case None =>
      assert Add(agg, rec)[..|agg|] == agg;
    case Some(i) =>
      SumCountsUpdate(agg, i, Bump(agg[i], rec));
  }

  /**
   * `process_dir` over the records `recs` leaves exactly their grouping: one
   * entry per type that occurs, counting its records, with `:dir` taken from
   * its first record's URL, and one non-empty list per category holding the
   * URLs of that type and category in record order.
   */
  lemma {:induction false} BuildRepresents(recs: seq<Record>)
    ensures Represents(Build(recs), recs)
    decreases |recs|
  {
    if |recs| > 0 {
      var init := recs[..|recs| - 1];
      var rec := recs[|recs| - 1];
      var agg := Build(init);
      assert Build(recs) == Add(agg, rec);
      assert init + [rec] == recs;
      BuildRepresents(init);
      if FindEntry(agg, rec.exception).Some? {
        AddExisting(agg, rec);
        ExistingStep(agg, init, rec, FindEntry(agg, rec.exception).value);
      } else {
        AddNewRepresents(agg, init, rec);
      }
    }
  }

  /** Every record is counted once: the counts add up to the number of records. */
  lemma {:induction false} BuildTotal(recs: seq<Record>)
    ensures SumCounts(Build(recs)) == |recs|
    decreases |recs|
  {
    if |recs| > 0 {
      var init := recs[..|recs| - 1];
      BuildTotal(init);
      AddTotal(Build(init), recs[|recs| - 1]);
    }
  }

  /** The entry of type `x` in `Build(recs)`, stated entry by entry. */
  lemma BuildEntry(recs: seq<Record>, i: nat)
    requires i < |Build(recs)|
    ensures var e := Build(recs)[i];
            e.count == CountOf(recs, e.exception) == SumSizes(e.lists) &&
            FirstUrl(recs, e.exception).Some? &&
            e.dir == DirOf(FirstUrl(recs, e.exception).value) &&
            forall j :: 0 <= j < |e.lists| ==> e.lists[j].urls == UrlsOf(recs, e.exception, e.lists[j].category)
  {
    BuildRepresents(recs);
  }

  /** A type has an entry exactly when some record has that type. */
  lemma BuildKeys(recs: seq<Record>, x: string)
    ensures HasEntry(Build(recs), x) <==> exists k :: 0 <= k < |recs| && recs[k].exception == x
  {
    BuildRepresents(recs);
    var agg := Build(recs);
    if HasEntry(agg, x) {
      var i :| 0 <= i < |agg| && agg[i].exception == x;
      assert EntryRepresents(agg[i], recs);
    }
  }
}
