/**
 * The notes page (src/pages/notes/index.tsx): it sorts the year groups of the
 * `NotesIndex` query result in place, newest year first, and shows every note
 * of a group as its date, a link to its slug and its description, falling
 * back to the excerpt. Its head is composed by the SEO component.
 */
module NotesPage {
  import opened Wrappers
  import opened Js
  import opened Content
  import opened NotesQuery
  import opened Seo

  /** One list item: the date, the link target, the link text and the shown description. */
  datatype Entry = Entry(date: string, link: Option<string>, title: string, blurb: string)

  /** One year heading with its list. */
  datatype Section = Section(year: int, entries: seq<Entry>)

  /** `node.frontmatter.description || node.excerpt`: an empty description falls back too. */
  function Blurb(d: Doc): (b: string)
    ensures Truthy(d.frontmatter.description) ==> b == d.frontmatter.description.value
    ensures d.frontmatter.description.None? || d.frontmatter.description.value == "" ==> b == d.excerpt
  {
    Or(d.frontmatter.description, d.excerpt)
  }

  /** The list item of one note; the link target is the slug as it stands. */
  function EntryOf(d: Doc): (e: Entry)
    ensures e.link == d.frontmatter.slug
    ensures e.date == d.frontmatter.date && e.title == d.frontmatter.title
    ensures e.blurb == Blurb(d)
  {
    Entry(d.frontmatter.date, d.frontmatter.slug, d.frontmatter.title, Blurb(d))
  }

  /** `group.nodes.map(...)` */
  function Entries(nodes: seq<Doc>): (es: seq<Entry>)
    ensures |es| == |nodes|
    ensures forall i :: 0 <= i < |nodes| ==> es[i] == EntryOf(nodes[i])
  {
    seq(|nodes|, i requires 0 <= i < |nodes| => EntryOf(nodes[i]))
  }

  /** Years in non-increasing order. */
  predicate YearsNonIncreasing(groups: seq<YearGroup>) {
    forall i, j :: 0 <= i < j < |groups| ==> groups[i].fieldValue >= groups[j].fieldValue
  }

  /**
   * `data.allMdx.group.sort((a, b) => b.fieldValue - a.fieldValue)`: an
   * in-place sort by the numeric year, largest first. The groups are only
   * reordered.
   */
  method SortGroups(a: array<YearGroup>)
    modifies a
    ensures YearsNonIncreasing(a[..])
    ensures multiset(a[..]) == old(multiset(a[..]))
  {
    var i := 0;
    while i < a.Length
      invariant 0 <= i <= a.Length
      invariant forall p, q :: 0 <= p < q < i ==> a[p].fieldValue >= a[q].fieldValue
      invariant multiset(a[..]) == old(multiset(a[..]))
    {
      var j := i;
      while j > 0 && a[j - 1].fieldValue < a[j].fieldValue
        invariant 0 <= j <= i < a.Length
        invariant multiset(a[..]) == old(multiset(a[..]))
        invariant forall p, q :: 0 <= p < q <= i && p != j && q != j ==> a[p].fieldValue >= a[q].fieldValue
        invariant forall q :: j < q <= i ==> a[j].fieldValue > a[q].fieldValue
      {
        SwapDown(a, j);
        j := j - 1;
      }
      forall p, q | 0 <= p < q <= i
        ensures a[p].fieldValue >= a[q].fieldValue
      {
        if q == j && p < j - 1 {
          assert a[p].fieldValue >= a[j - 1].fieldValue;
        }
      }
      i := i + 1;
    }
    assert a[..] == a[..a.Length];
  }

  /** The page's copy of the query groups, sorted by `SortGroups`. */
  method SortedCopy(groups: seq<YearGroup>) returns (shown: seq<YearGroup>)
    ensures YearsNonIncreasing(shown)
    ensures multiset(shown) == multiset(groups)
  {
    var a := new YearGroup[|groups|](i requires 0 <= i < |groups| => groups[i]);
    assert a[..] == groups;
    SortGroups(a);
    shown := a[..];
  }

  /** Exchange the groups at `j - 1` and `j`. */
  method SwapDown(a: array<YearGroup>, j: int)
    requires 0 < j < a.Length
    modifies a
    ensures a[..] == old(a[..])[j - 1 := old(a[j])][j := old(a[j - 1])]
    ensures multiset(a[..]) == old(multiset(a[..]))
  {
    a[j - 1], a[j] := a[j], a[j - 1];
  }

  /** With distinct keys a value occurs at most once. */
  lemma {:induction false} OccursAtMostOnce(s: seq<YearGroup>, x: YearGroup)
    requires DistinctKeys(s)
    ensures multiset(s)[x] <= 1
  {
    if s != [] {
      assert s == [s[0]] + s[1..];
      assert DistinctKeys(s[1..]) by {
        assert forall k :: 0 <= k < |s[1..]| ==> s[1..][k] == s[k + 1];
      }
      OccursAtMostOnce(s[1..], x);
      if s[0] == x {
        assert x !in s[1..] by {
          forall k | 0 <= k < |s[1..]| ensures s[1..][k] != x {
            assert s[1..][k] == s[k + 1];
          }
        }
      }
    }
  }

  /** Reordering groups with distinct keys keeps the keys distinct. */
  lemma DistinctKeysPermutation(s: seq<YearGroup>, t: seq<YearGroup>)
    requires multiset(s) == multiset(t) && DistinctKeys(s)
    ensures DistinctKeys(t)
  {
    forall i, j | 0 <= i < j < |t|
      ensures t[i].fieldValue != t[j].fieldValue
    {
      assert t[i] in multiset(s) && t[j] in multiset(s);
      var p :| 0 <= p < |s| && s[p] == t[i];
      var q :| 0 <= q < |s| && s[q] == t[j];
      if t[i] == t[j] {
        assert t == t[..i] + [t[i]] + t[i + 1..j] + [t[j]] + t[j + 1..];
        OccursAtMostOnce(s, t[i]);
      }
    }
  }

  function SectionOf(g: YearGroup): (s: Section)
    ensures s.year == g.fieldValue && s.entries == Entries(g.nodes)
  {
    Section(g.fieldValue, Entries(g.nodes))
  }

  /**
   * A reordering of groups with distinct keys into non-increasing years has
   * strictly decreasing years and holds the same groups.
   */
  lemma ReorderedGroups(groups: seq<YearGroup>, shown: seq<YearGroup>)
    requires DistinctKeys(groups)
    requires multiset(shown) == multiset(groups)
    requires YearsNonIncreasing(shown)
    ensures forall i, j :: 0 <= i < j < |shown| ==> shown[i].fieldValue > shown[j].fieldValue
    ensures forall i :: 0 <= i < |shown| ==> shown[i] in groups
    ensures forall g :: g in groups ==> g in shown
  {
    DistinctKeysPermutation(groups, shown);
    forall i | 0 <= i < |shown|
      ensures shown[i] in groups
    {
      assert shown[i] in multiset(groups);
    }
    forall g | g in groups
      ensures g in shown
    {
      assert g in multiset(shown);
    }
  }

  /** `.map((group) => ...)`: one section per group, in order. */
  function SectionsOf(groups: seq<YearGroup>): (sections: seq<Section>)
    ensures |sections| == |groups|
    ensures forall i :: 0 <= i < |groups| ==> sections[i] == SectionOf(groups[i])
  {
    seq(|groups|, i requires 0 <= i < |groups| => SectionOf(groups[i]))
  }

  /** The year headings of sorted groups with distinct years are strictly decreasing. */
  lemma SectionYearsDecrease(groups: seq<YearGroup>, shown: seq<YearGroup>)
    requires DistinctKeys(groups)
    requires multiset(shown) == multiset(groups)
    requires YearsNonIncreasing(shown)
    ensures forall i, j :: 0 <= i < j < |SectionsOf(shown)| ==> SectionsOf(shown)[i].year > SectionsOf(shown)[j].year
  {
    ReorderedGroups(groups, shown);
  }

  /** Every year heading after reordering is the year of some published note. */
  lemma SectionYearsPublished(docs: seq<Doc>, groups: seq<YearGroup>, shown: seq<YearGroup>)
    requires forall k :: 0 <= k < |groups| ==> PublishedIn(docs, groups[k].fieldValue)
    requires multiset(shown) == multiset(groups)
    ensures forall i :: 0 <= i < |SectionsOf(shown)| ==> PublishedIn(docs, SectionsOf(shown)[i].year)
  {
    forall i | 0 <= i < |SectionsOf(shown)|
      ensures PublishedIn(docs, SectionsOf(shown)[i].year)
    {
      assert shown[i] in multiset(groups);
      var k :| 0 <= k < |groups| && groups[k] == shown[i];
      assert PublishedIn(docs, groups[k].fieldValue);
    }
  }

  /** After reordering, every published note's year still has a heading. */
  lemma SectionYearsComplete(docs: seq<Doc>, groups: seq<YearGroup>, shown: seq<YearGroup>)
    requires forall d :: d in docs && IsPublished(d) ==> HasGroup(groups, d.year)
    requires multiset(shown) == multiset(groups)
    ensures forall d :: d in docs && IsPublished(d) ==> HasSection(SectionsOf(shown), d.year)
  {
    var sections := SectionsOf(shown);
    forall d | d in docs && IsPublished(d)
      ensures HasSection(sections, d.year)
    {
      var k :| 0 <= k < |groups| && groups[k].fieldValue == d.year;
      assert groups[k] in multiset(shown);
      var i :| 0 <= i < |shown| && shown[i] == groups[k];
      assert sections[i].year == d.year;
    }
  }

  /** Reordering groups keeps what each group holds. */
  lemma SectionEntriesKept(sorted: seq<Doc>, groups: seq<YearGroup>, shown: seq<YearGroup>)
    requires forall k :: 0 <= k < |groups| ==> groups[k].nodes == WithYear(sorted, groups[k].fieldValue)
    requires multiset(shown) == multiset(groups)
    ensures forall i :: 0 <= i < |SectionsOf(shown)| ==>
      SectionsOf(shown)[i].entries == Entries(WithYear(sorted, SectionsOf(shown)[i].year))
  {
    forall i | 0 <= i < |shown|
      ensures shown[i].nodes == WithYear(sorted, shown[i].fieldValue)
    {
      assert shown[i] in multiset(groups);
      var k :| 0 <= k < |groups| && groups[k] == shown[i];
    }
  }

  /** Some section is headed `y`. */
  predicate HasSection(sections: seq<Section>, y: int) {
    exists i :: 0 <= i < |sections| && sections[i].year == y
  }

  /**
   * What the page relies on from the query result: distinct years, exactly
   * the published years, and each group holding the sorted notes of its year.
   */
  predicate QueryGroups(docs: seq<Doc>, sorted: seq<Doc>, groups: seq<YearGroup>) {
    && DistinctKeys(groups)
    && (forall k :: 0 <= k < |groups| ==> PublishedIn(docs, groups[k].fieldValue))
    && (forall d :: d in docs && IsPublished(d) ==> HasGroup(groups, d.year))
    && (forall k :: 0 <= k < |groups| ==> groups[k].nodes == WithYear(sorted, groups[k].fieldValue))
  }

  lemma NotesIndexGroups(docs: seq<Doc>)
    ensures QueryGroups(docs, SortByDateDesc(Published(docs)), NotesIndex(docs))
  {
    NotesIndexKeys(docs);
    GroupNodesByYear(SortByDateDesc(Published(docs)));
  }

  /** The sections shown for any reordering of the groups into non-increasing years. */
  lemma ShownSections(docs: seq<Doc>, sorted: seq<Doc>, groups: seq<YearGroup>, shown: seq<YearGroup>)
    requires QueryGroups(docs, sorted, groups)
    requires multiset(shown) == multiset(groups)
    requires YearsNonIncreasing(shown)
    requires NewestFirst(sorted)
    ensures forall i, j :: 0 <= i < j < |SectionsOf(shown)| ==> SectionsOf(shown)[i].year > SectionsOf(shown)[j].year
    ensures forall i :: 0 <= i < |SectionsOf(shown)| ==> PublishedIn(docs, SectionsOf(shown)[i].year)
    ensures forall d :: d in docs && IsPublished(d) ==> HasSection(SectionsOf(shown), d.year)
    ensures forall i :: 0 <= i < |SectionsOf(shown)| ==>
      SectionsOf(shown)[i].entries == Entries(WithYear(sorted, SectionsOf(shown)[i].year))
    ensures forall i :: 0 <= i < |SectionsOf(shown)| ==> NewestFirst(WithYear(sorted, SectionsOf(shown)[i].year))
  {
    forall i | 0 <= i < |SectionsOf(shown)|
      ensures NewestFirst(WithYear(sorted, SectionsOf(shown)[i].year))
    {
      WithYearNewestFirst(sorted, SectionsOf(shown)[i].year);
    }
    SectionYearsDecrease(groups, shown);
    SectionYearsPublished(docs, groups, shown);
    SectionYearsComplete(docs, groups, shown);
    SectionEntriesKept(sorted, groups, shown);
  }

  /**
   * The page body: the query result's groups, sorted in place by the page,
   * each shown as a section. The sections carry exactly the years of the
   * published notes, strictly newest first, and each lists the published
   * notes of its year, newest first.
   */
  method NotesPageSections(docs: seq<Doc>) returns (sections: seq<Section>)
    ensures forall i, j :: 0 <= i < j < |sections| ==> sections[i].year > sections[j].year
    ensures forall i :: 0 <= i < |sections| ==> PublishedIn(docs, sections[i].year)
    ensures forall d :: d in docs && IsPublished(d) ==> HasSection(sections, d.year)
    ensures forall i :: 0 <= i < |sections| ==>
      sections[i].entries == Entries(WithYear(SortByDateDesc(Published(docs)), sections[i].year))
    ensures forall i :: 0 <= i < |sections| ==>
      NewestFirst(WithYear(SortByDateDesc(Published(docs)), sections[i].year))
  {
    var sorted := SortByDateDesc(Published(docs));
    var groups := NotesIndex(docs);
    NotesIndexGroups(docs);
    assert QueryGroups(docs, sorted, groups);
    var shown := SortedCopy(groups);
    ShownSections(docs, sorted, groups, shown);
    sections := SectionsOf(shown);
  }

  /** The notes page's head: `<Seo title="Notes" description=... pathname="/notes" />`. */
  function NotesHead(): (p: SeoProps)
  {
    SeoProps(Some("Notes"), Some("The writings of a computer hobbyist dork"), None, None, Some("/notes"))
  }

  /** With the site's configuration, the notes page is titled "Notes | yukiisbo.red" at https://yukiisbo.red/notes. */
  lemma NotesHeadExample()
    ensures Compose(NotesHead(), SiteConfig).title == "Notes | yukiisbo.red"
    ensures Compose(NotesHead(), SiteConfig).url == "https://yukiisbo.red/notes"
    ensures Compose(NotesHead(), SiteConfig).description == "The writings of a computer hobbyist dork"
    ensures Compose(NotesHead(), SiteConfig).image == "https://yukiisbo.red/profile.png"
    ensures Compose(NotesHead(), SiteConfig).ogType == "website"
  {
  }
}
