/**
 * The meaning of the `NotesIndex` query on the notes page
 * (src/pages/notes/index.tsx): keep the documents whose `slug` is not null,
 * sort them by frontmatter date, newest first, and group them by `fields.year`.
 *
 * The query engine belongs to the framework; this module states what the
 * declared query returns as functions over a list of documents.
 */
module NotesQuery {
  import opened Dates
  import opened Content

  datatype YearGroup = YearGroup(fieldValue: int, nodes: seq<Doc>)

  // ---------------------------------------------------------------------------
  // filter: { frontmatter: { slug: { ne: null } } }
  // ---------------------------------------------------------------------------

  function Published(docs: seq<Doc>): (r: seq<Doc>)
    ensures |r| <= |docs|
    ensures forall d :: d in r <==> d in docs && IsPublished(d)
    ensures multiset(r) <= multiset(docs)
  {
    if docs == [] then []
    else
      assert docs == [docs[0]] + docs[1..];
      if IsPublished(docs[0]) then [docs[0]] + Published(docs[1..]) else Published(docs[1..])
  }

  /** The filter keeps the published documents in their order, each as often as it occurs. */
  lemma {:induction false} PublishedCount(docs: seq<Doc>, d: Doc)
    ensures multiset(Published(docs))[d] == if IsPublished(d) then multiset(docs)[d] else 0
  {
    if docs != [] {
      var tail := docs[1..];
      PublishedCount(tail, d);
      assert docs == [docs[0]] + tail;
      assert multiset(docs) == multiset{docs[0]} + multiset(tail);
      if IsPublished(docs[0]) {
        assert Published(docs) == [docs[0]] + Published(tail);
        assert multiset(Published(docs)) == multiset{docs[0]} + multiset(Published(tail));
      } else {
        assert Published(docs) == Published(tail);
      }
    }
  }

  // ---------------------------------------------------------------------------
  // sort: [{ frontmatter: { date: DESC } }]
  // ---------------------------------------------------------------------------

  /**
   * The sort key: a dated document's date as the number YYYYMMDD, so that
   * numeric order is calendar order. A document without a well-formed date
   * gets key 0 and sorts as the oldest.
   */
  function SortKey(d: Doc): nat {
    if IsDated(d) then DateKey(d.frontmatter.date) else 0
  }

  /** Non-increasing frontmatter date. */
  predicate NewestFirst(docs: seq<Doc>) {
    forall i, j :: 0 <= i < j < |docs| ==> SortKey(docs[i]) >= SortKey(docs[j])
  }

  /** Place `d` before the first document that is not newer than it. */
  function InsertByDate(d: Doc, sorted: seq<Doc>): (r: seq<Doc>)
    requires NewestFirst(sorted)
    ensures multiset(r) == multiset(sorted) + multiset{d}
    ensures NewestFirst(r)
  {
    if sorted == [] || SortKey(sorted[0]) <= SortKey(d) then
      PrependNewest(d, sorted);
      [d] + sorted
    else
      var head, tail := sorted[0], sorted[1..];
      TailNewestFirst(sorted);
      var rest := InsertByDate(d, tail);
      assert sorted == [head] + tail;
      HeadNotOlder(head, d, tail, rest);
      [head] + rest
  }

  /** Dropping the first document keeps the order, and that document is not older than the rest. */
  lemma TailNewestFirst(sorted: seq<Doc>)
    requires sorted != [] && NewestFirst(sorted)
    ensures NewestFirst(sorted[1..])
    ensures forall k :: 0 <= k < |sorted[1..]| ==> SortKey(sorted[1..][k]) <= SortKey(sorted[0])
  {
    assert forall k :: 0 <= k < |sorted[1..]| ==> sorted[1..][k] == sorted[k + 1];
  }

  /** A document not older than the first of a newest-first list can go in front. */
  lemma PrependNewest(d: Doc, sorted: seq<Doc>)
    requires NewestFirst(sorted)
    requires sorted == [] || SortKey(sorted[0]) <= SortKey(d)
    ensures NewestFirst([d] + sorted)
  {
    var r := [d] + sorted;
    assert forall i :: 0 < i < |r| ==> r[i] == sorted[i - 1];
  }

  /** Putting a document that is not older than any of `rest` in front keeps the order. */
  lemma HeadNotOlder(head: Doc, d: Doc, tail: seq<Doc>, rest: seq<Doc>)
    requires NewestFirst(rest)
    requires SortKey(d) < SortKey(head)
    requires forall k :: 0 <= k < |tail| ==> SortKey(tail[k]) <= SortKey(head)
    requires multiset(rest) == multiset(tail) + multiset{d}
    ensures NewestFirst([head] + rest)
  {
    var r := [head] + rest;
    forall k | 0 <= k < |rest|
      ensures SortKey(rest[k]) <= SortKey(head)
    {
      assert rest[k] in multiset(rest);
      if rest[k] != d {
        assert rest[k] in multiset(tail);
        var m :| 0 <= m < |tail| && tail[m] == rest[k];
      }
    }
    assert forall i :: 0 < i < |r| ==> r[i] == rest[i - 1];
  }

  /** The query's ordering: newest first; documents of the same date keep their input order. */
  function SortByDateDesc(docs: seq<Doc>): (r: seq<Doc>)
    ensures multiset(r) == multiset(docs)
    ensures NewestFirst(r)
  {
    if docs == [] then []
    else
      assert docs == [docs[0]] + docs[1..];
      InsertByDate(docs[0], SortByDateDesc(docs[1..]))
  }

  // ---------------------------------------------------------------------------
  // group(field: { fields: { year: SELECT } })
  // ---------------------------------------------------------------------------

  /** The documents whose `fields.year` is `y`, in order. */
  function WithYear(docs: seq<Doc>, y: int): (r: seq<Doc>)
    ensures |r| <= |docs|
    ensures forall d :: d in r <==> d in docs && d.year == y
  {
    if docs == [] then []
    else if docs[0].year == y then [docs[0]] + WithYear(docs[1..], y)
    else
      assert docs == [docs[0]] + docs[1..];
      WithYear(docs[1..], y)
  }

  /** The documents whose `fields.year` is not `y`, in order. */
  function WithoutYear(docs: seq<Doc>, y: int): (r: seq<Doc>)
    ensures |r| <= |docs|
    ensures docs != [] && docs[0].year == y ==> |r| < |docs|
    ensures forall d :: d in r <==> d in docs && d.year != y
  {
    if docs == [] then []
    else if docs[0].year != y then [docs[0]] + WithoutYear(docs[1..], y)
    else
      assert docs == [docs[0]] + docs[1..];
      WithoutYear(docs[1..], y)
  }

  /**
   * One group per distinct `fields.year`, holding the documents of that year
   * in their order. The framework's own order of the groups is not part of
   * the page's contract (the page sorts them); here they come in order of
   * first appearance.
   */
  function GroupByYear(docs: seq<Doc>): (groups: seq<YearGroup>)
    decreases |docs|
  {
    if docs == [] then []
    else
      var y := docs[0].year;
      [YearGroup(y, WithYear(docs, y))] + GroupByYear(WithoutYear(docs, y))
  }

  /** `allMdx(sort, filter) { group(field) }`: the year groups the page receives. */
  function NotesIndex(docs: seq<Doc>): (groups: seq<YearGroup>)
  {
    GroupByYear(SortByDateDesc(Published(docs)))
  }

  // ---------------------------------------------------------------------------
  // Properties of the grouping
  // ---------------------------------------------------------------------------

  function Years(docs: seq<Doc>): (ys: set<int>)
  {
    set d | d in docs :: d.year
  }

  /** No two groups share a year. */
  predicate DistinctKeys(groups: seq<YearGroup>) {
    forall i, j :: 0 <= i < j < |groups| ==> groups[i].fieldValue != groups[j].fieldValue
  }

  /** All the groups' documents, group after group. */
  function Flatten(groups: seq<YearGroup>): (docs: seq<Doc>)
  {
    if groups == [] then [] else groups[0].nodes + Flatten(groups[1..])
  }

  lemma {:induction false} SplitByYear(docs: seq<Doc>, y: int)
    ensures multiset(WithYear(docs, y)) + multiset(WithoutYear(docs, y)) == multiset(docs)
  {
    if docs != [] {
      SplitByYear(docs[1..], y);
      assert docs == [docs[0]] + docs[1..];
    }
  }

  lemma {:induction false} WithYearOfWithout(docs: seq<Doc>, y: int, k: int)
    requires k != y
    ensures WithYear(WithoutYear(docs, y), k) == WithYear(docs, k)
  {
    if docs != [] {
      WithYearOfWithout(docs[1..], y, k);
    }
  }

  /** The grouping is a partition: its groups hold exactly the input documents. */
  lemma {:induction false} GroupByYearPartition(docs: seq<Doc>)
    ensures multiset(Flatten(GroupByYear(docs))) == multiset(docs)
    decreases |docs|
  {
    if docs != [] {
      var y := docs[0].year;
      GroupByYearPartition(WithoutYear(docs, y));
      SplitByYear(docs, y);
    }
  }

  /** Every group key is the year of some input document. */
  lemma {:induction false} GroupKeysAreYears(docs: seq<Doc>)
    ensures forall i :: 0 <= i < |GroupByYear(docs)| ==> GroupByYear(docs)[i].fieldValue in Years(docs)
    decreases |docs|
  {
    if docs != [] {
      var y := docs[0].year;
      var rest := WithoutYear(docs, y);
      GroupKeysAreYears(rest);
      var groups := GroupByYear(docs);
      assert docs[0] in docs;
      forall i | 1 <= i < |groups|
        ensures groups[i].fieldValue in Years(docs)
      {
        assert groups[i] == GroupByYear(rest)[i - 1];
        var d :| d in rest && d.year == groups[i].fieldValue;
        assert d in docs;
      }
    }
  }

  /** Each group is the documents of its year, in their order, and is not empty. */
  lemma {:induction false} GroupNodesByYear(docs: seq<Doc>)
    ensures forall i :: 0 <= i < |GroupByYear(docs)| ==>
      GroupByYear(docs)[i].nodes == WithYear(docs, GroupByYear(docs)[i].fieldValue) && GroupByYear(docs)[i].nodes != []
    decreases |docs|
  {
    if docs != [] {
      var y := docs[0].year;
      var rest := WithoutYear(docs, y);
      GroupNodesByYear(rest);
      GroupKeysAreYears(rest);
      var groups := GroupByYear(docs);
      assert docs[0] in WithYear(docs, y);
      forall i | 1 <= i < |groups|
        ensures groups[i].nodes == WithYear(docs, groups[i].fieldValue) && groups[i].nodes != []
      {
        var g := GroupByYear(rest)[i - 1];
        assert groups[i] == g;
        var d :| d in rest && d.year == g.fieldValue;
        WithYearOfWithout(docs, y, g.fieldValue);
      }
    }
  }

  /** No two groups share a year. */
  lemma {:induction false} GroupKeysDistinct(docs: seq<Doc>)
    ensures DistinctKeys(GroupByYear(docs))
    decreases |docs|
  {
    if docs != [] {
      var y := docs[0].year;
      var rest := WithoutYear(docs, y);
      GroupKeysDistinct(rest);
      GroupKeysAreYears(rest);
      var groups := GroupByYear(docs);
      forall i, j | 0 <= i < j < |groups|
        ensures groups[i].fieldValue != groups[j].fieldValue
      {
        assert groups[j] == GroupByYear(rest)[j - 1];
        if i > 0 {
          assert groups[i] == GroupByYear(rest)[i - 1];
        } else {
          var d :| d in rest && d.year == groups[j].fieldValue;
        }
      }
    }
  }

  /** Some published document belongs to year `y`. */
  predicate PublishedIn(docs: seq<Doc>, y: int) {
    exists d :: d in docs && IsPublished(d) && d.year == y
  }

  /** Some group is keyed by `y`. */
  predicate HasGroup(groups: seq<YearGroup>, y: int) {
    exists i :: 0 <= i < |groups| && groups[i].fieldValue == y
  }

  /** Every year present among the documents has a group. */
  lemma {:induction false} GroupKeysComplete(docs: seq<Doc>)
    ensures forall d :: d in docs ==> HasGroup(GroupByYear(docs), d.year)
    decreases |docs|
  {
    if docs != [] {
      var y := docs[0].year;
      var rest := WithoutYear(docs, y);
      GroupKeysComplete(rest);
      var groups := GroupByYear(docs);
      var tail := GroupByYear(rest);
      assert groups == [YearGroup(y, WithYear(docs, y))] + tail;
      forall d | d in docs
        ensures HasGroup(groups, d.year)
      {
        if d.year == y {
          assert groups[0].fieldValue == d.year;
        } else {
          assert d in rest;
          assert HasGroup(tail, d.year);
          var i :| 0 <= i < |tail| && tail[i].fieldValue == d.year;
          assert groups[i + 1] == tail[i];
        }
      }
    }
  }

  /** A subsequence taken by `WithYear` keeps the newest-first order. */
  lemma {:induction false} WithYearNewestFirst(docs: seq<Doc>, y: int)
    requires NewestFirst(docs)
    ensures NewestFirst(WithYear(docs, y))
  {
    if docs != [] {
      assert docs == [docs[0]] + docs[1..];
      WithYearNewestFirst(docs[1..], y);
      var r := WithYear(docs, y);
      if docs[0].year == y {
        var tail := WithYear(docs[1..], y);
        assert r == [docs[0]] + tail;
        forall j | 0 <= j < |tail|
          ensures SortKey(docs[0]) >= SortKey(tail[j])
        {
          assert tail[j] in docs[1..];
        }
      }
    }
  }

  // ---------------------------------------------------------------------------
  // Properties of the page's query result
  // ---------------------------------------------------------------------------

  /** The sorted documents are the published ones. */
  lemma SortedMembers(docs: seq<Doc>)
    ensures forall d :: d in SortByDateDesc(Published(docs)) <==> d in docs && IsPublished(d)
  {
    var sorted := SortByDateDesc(Published(docs));
    forall d ensures d in sorted <==> d in Published(docs) {
      assert d in sorted <==> d in multiset(sorted);
      assert d in Published(docs) <==> d in multiset(Published(docs));
    }
  }

  /** A document whose `slug` is null appears in no year group. */
  lemma NotesIndexOnlyPublished(docs: seq<Doc>)
    ensures forall i, d :: 0 <= i < |NotesIndex(docs)| && d in NotesIndex(docs)[i].nodes ==> d in docs && IsPublished(d)
  {
    var sorted := SortByDateDesc(Published(docs));
    SortedMembers(docs);
    GroupNodesByYear(sorted);
  }

  /**
   * The year groups partition the published documents: together they hold
   * each published document exactly as often as the input does.
   */
  lemma NotesIndexPartition(docs: seq<Doc>)
    ensures multiset(Flatten(NotesIndex(docs))) == multiset(Published(docs))
  {
    GroupByYearPartition(SortByDateDesc(Published(docs)));
  }

  /** A published document lies in exactly one year group. */
  lemma NotesIndexExactlyOneGroup(docs: seq<Doc>, d: Doc)
    requires d in docs && IsPublished(d)
    ensures exists i :: 0 <= i < |NotesIndex(docs)| && d in NotesIndex(docs)[i].nodes
    ensures forall i, j ::
      (0 <= i < |NotesIndex(docs)| && 0 <= j < |NotesIndex(docs)| && d in NotesIndex(docs)[i].nodes && d in NotesIndex(docs)[j].nodes)
      ==> i == j
  {
    var sorted := SortByDateDesc(Published(docs));
    var groups := NotesIndex(docs);
    SortedMembers(docs);
    GroupNodesByYear(sorted);
    GroupKeysDistinct(sorted);
    GroupKeysComplete(sorted);
    assert d in sorted && HasGroup(groups, d.year);
    var i :| 0 <= i < |groups| && groups[i].fieldValue == d.year;
    assert d in groups[i].nodes;
  }

  /**
   * Every document of a group has `fields.year` equal to the group's
   * `fieldValue`, no two groups share a year, and every year of a published
   * document has a group.
   */
  lemma NotesIndexKeys(docs: seq<Doc>)
    ensures forall i, d :: 0 <= i < |NotesIndex(docs)| && d in NotesIndex(docs)[i].nodes ==> d.year == NotesIndex(docs)[i].fieldValue
    ensures DistinctKeys(NotesIndex(docs))
    ensures forall d :: d in docs && IsPublished(d) ==> HasGroup(NotesIndex(docs), d.year)
    ensures forall i :: 0 <= i < |NotesIndex(docs)| ==> PublishedIn(docs, NotesIndex(docs)[i].fieldValue)
  {
    var sorted := SortByDateDesc(Published(docs));
    SortedMembers(docs);
    GroupNodesByYear(sorted);
    GroupKeysDistinct(sorted);
    GroupKeysComplete(sorted);
    GroupKeysAreYears(sorted);
  }

  /** Within each group the documents are newest first. */
  lemma NotesIndexNewestFirst(docs: seq<Doc>)
    ensures forall i :: 0 <= i < |NotesIndex(docs)| ==> NewestFirst(NotesIndex(docs)[i].nodes)
  {
    var sorted := SortByDateDesc(Published(docs));
    var groups := NotesIndex(docs);
    GroupNodesByYear(sorted);
    forall i | 0 <= i < |groups|
      ensures NewestFirst(groups[i].nodes)
    {
      WithYearNewestFirst(sorted, groups[i].fieldValue);
    }
  }

  /**
   * With every year derived from its date by the build step, every group's
   * key is the calendar year of each of its documents' dates.
   */
  lemma NotesIndexYearOfDate(docs: seq<Doc>)
    requires forall d :: d in docs ==> YearDerived(d)
    ensures forall i, d :: 0 <= i < |NotesIndex(docs)| && d in NotesIndex(docs)[i].nodes ==>
      YearDerived(d) && NotesIndex(docs)[i].fieldValue == YearOf(d.frontmatter.date)
  {
    var groups := NotesIndex(docs);
    NotesIndexKeys(docs);
    NotesIndexOnlyPublished(docs);
    DerivedKeys(docs, groups);
  }

  /** Groups keyed by `fields.year` over documents whose year is derived from the date. */
  lemma DerivedKeys(docs: seq<Doc>, groups: seq<YearGroup>)
    requires forall d :: d in docs ==> YearDerived(d)
    requires forall i, d :: 0 <= i < |groups| && d in groups[i].nodes ==> d in docs
    requires forall i, d :: 0 <= i < |groups| && d in groups[i].nodes ==> d.year == groups[i].fieldValue
    ensures forall i, d :: 0 <= i < |groups| && d in groups[i].nodes ==>
      YearDerived(d) && groups[i].fieldValue == YearOf(d.frontmatter.date)
  {
  }


}
