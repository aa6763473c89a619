# yukiisbo.red notes — a Dafny model

This project models the core of the yukiisbo.red personal site, a Gatsby site
written in TypeScript, and proves properties of that model. It covers three
parts:

- **The build step** (`onCreateNode`, `gatsby-node.ts`). Every node entering
  the content layer passes through it. An `Mdx` node gets a `year` field and an
  `html` field. The year comes from its frontmatter date. The html is its body
  rendered as Markdown. Every other node is left alone. `GatsbyNode.Node` is a
  class whose `fields` the methods update in place. The fields are a sequence
  of named entries in insertion order, as a JavaScript object keeps its
  non-numeric keys (such as `year` and `html`).
- **The notes listing** (`src/pages/notes/index.tsx`). The `NotesIndex` query
  keeps the published MDX documents, which are those with a slug. It sorts
  them newest first and groups them by `fields.year`; this part is modelled as
  functions in `NotesQuery`. The page then sorts the year groups in place,
  largest year first (`NotesPage.SortGroups`, an insertion sort on an
  `array`). It shows every note as its date, a link to its slug, its title and
  its description, with the excerpt as the fallback.
- **The head metadata** (`src/components/seo.tsx`). It composes the title,
  description, image, type and url from a page's optional overrides and the
  site metadata of `gatsby-config.ts`. It then emits the title tag, eleven
  meta tags and the icon link.

Files: `wrappers.dfy` (Option), `js.dfy` (JavaScript truthiness and `||`),
`dates.dfy` (`YYYY-MM-DD` dates, the calendar, JavaScript's local-time year),
`content.dfy` (frontmatter and documents), `gatsby_node.dfy`,
`notes_query.dfy`, `notes_page.dfy` and `seo.dfy`.

Dates are modelled as `YYYY-MM-DD` text naming a real calendar day
(`Dates.WellFormedDate`). The year of a date is its written four-digit year
(`Dates.YearOf`). The query orders dates by the number YYYYMMDD, which is
calendar order. The Markdown renderer `marked.parse` is the parameter `render`
of `OnCreateNode`. The model fixes only that the stored html is
`render(body)`.

No modelled file reads the `html` field: the build step stores it and nothing
in the listing or the head uses it. Documents with the same date keep their
input order in `NotesQuery.SortByDateDesc`, an insertion sort.

## Model

| member | source | states |
|---|---|---|
| Js.Or | src/components/seo.tsx:29 | JavaScript's `or` on an optional string: a non-empty value wins; a missing or empty one falls back |
| Js.OrNonEmpty | src/components/seo.tsx:29-31 | with a non-empty fallback the result of that `or` is never empty |
| Dates.YearOf | gatsby-node.ts:12-13 | the year of a `YYYY-MM-DD` date is a number below 10000 |
| Dates.YearTextOfYearOf | gatsby-node.ts:12-13 | the derived year, printed as four digits, is exactly the year written at the start of the date |
| Dates.YearOfYearText | gatsby-node.ts:12-13 | writing a year as four digits in front of `-MM-DD` and reading it back gives that year |
| Dates.DaysInMonth | gatsby-node.ts:12 | months have 28 to 31 days; February has 29 exactly in leap years; the 31-day months are 1, 3, 5, 7, 8, 10 and 12; the 30-day months are 4, 6, 9 and 11 |
| Dates.DateKey | src/pages/notes/index.tsx:56 | the date order as a number. `YearOfMonotone` shows the year leads the order, and `DateKeyInjective` shows equal keys mean equal dates |
| Dates.YearOfMonotone | src/pages/notes/index.tsx:56 | a date that is not later has a year that is not later, so newest-first order is also year order |
| Dates.DateKeyInjective | src/pages/notes/index.tsx:56 | two well-formed dates with the same sort key are the same text, so the date order has no false ties |
| Dates.PreviousDay | gatsby-node.ts:12-13 | the day before a valid day is a valid day, and the next day after it is the day we started from; its year changes only on 1 January, and then it goes down by one |
| Dates.PreviousOfNext | gatsby-node.ts:12-13 | going a day forward and then a day back returns to the same day, so `PreviousDay` and `NextDay` are inverse both ways |
| Dates.LocalYearOfUtcMidnight | gatsby-node.ts:12-13 | `new Date(date).getFullYear()` as written: the local year of midnight UTC on the date. `LocalYearDiffers` states where it differs from the written year |
| Dates.LocalDayOfUtcMidnight | gatsby-node.ts:12-13 | the local calendar day of midnight UTC on a date is a valid day for any offset within a day |
| Dates.LocalYearDiffers | gatsby-node.ts:12-13 | as written, `getFullYear` differs from the written year exactly for 1 January west of UTC, and then it is one less |
| Dates.NewYearWestOfUtc | gatsby-node.ts:12-13 | a note dated 2024-01-01 built at UTC-5 gets year 2023 as written, while its written year is 2024 |
| GatsbyNode.Lookup | gatsby-node.ts:14-17 | reading a field finds nothing exactly when no entry has that name; what it finds is an entry of the node |
| GatsbyNode.SetField | gatsby-node.ts:14 | setting a new name appends it after the existing entries; setting an existing name keeps the names and their order |
| GatsbyNode.LookupSetField | gatsby-node.ts:14-17 | after setting a field, reading it gives the new value and every other name reads as before |
| GatsbyNode.SetYearThenHtml | gatsby-node.ts:14-17 | after setting `year` and then `html`, both read back their new values and every other name reads as before |
| GatsbyNode.AppendYearThenHtml | gatsby-node.ts:14-17 | on fields with neither name, `year` and then `html` are appended after the existing entries, in that order |
| GatsbyNode.Node.constructor | gatsby-node.ts:4-8 | a node enters the build step with its type, frontmatter and body, and with no fields |
| GatsbyNode.Node.CreateNodeField | gatsby-node.ts:14 | `createNodeField` sets one field and changes nothing else about the node |
| GatsbyNode.Node.OnCreateNode | gatsby-node.ts:4-19 | a non-`Mdx` node is unchanged. An `Mdx` node gets `year` (its date's year), then `html` (its rendered body), appended in that order when new. Its other fields, frontmatter and body are unchanged |
| GatsbyNode.Node.AsDoc | src/pages/notes/index.tsx:55-69 | a node reads as a listed document exactly when it is an `Mdx` node with a numeric `year` field; the document carries the frontmatter and that year |
| GatsbyNode.IndexMdxNode | gatsby-node.ts:11-14 | after the build step an `Mdx` node reads as a document whose year is derived from its frontmatter date |
| NotesQuery.Published | src/pages/notes/index.tsx:57 | the filter keeps exactly the documents whose slug is not null, and only input documents |
| NotesQuery.PublishedCount | src/pages/notes/index.tsx:57 | the filter keeps each published document as often as it occurs and drops every unpublished one |
| NotesQuery.SortKey | src/pages/notes/index.tsx:56 | the key the `date: DESC` sort compares: a dated note's `DateKey`, and 0 for an undated one. `InsertByDate` and `SortByDateDesc` order by it |
| NotesQuery.InsertByDate | src/pages/notes/index.tsx:56 | inserting into a newest-first list adds exactly that document and keeps the list newest first |
| NotesQuery.SortByDateDesc | src/pages/notes/index.tsx:56 | the sort is a permutation of its input and is newest first |
| NotesQuery.WithYear | src/pages/notes/index.tsx:59 | a group's documents are exactly the input documents of that year |
| NotesQuery.WithoutYear | src/pages/notes/index.tsx:59 | the remaining documents are exactly those of other years, and fewer when the first document is of that year |
| NotesQuery.SplitByYear | src/pages/notes/index.tsx:59 | the documents of a year and the rest together are the input |
| NotesQuery.GroupByYear | src/pages/notes/index.tsx:59 | `group(field: fields.year)`. The groups partition their input (`GroupByYearPartition`), have distinct keys (`GroupKeysDistinct`), cover every year (`GroupKeysComplete`), and each holds its year's documents in order (`GroupNodesByYear`) |
| NotesQuery.GroupByYearPartition | src/pages/notes/index.tsx:59 | the groups together hold exactly the input documents |
| NotesQuery.GroupKeysAreYears | src/pages/notes/index.tsx:59 | every group key is the year of some input document |
| NotesQuery.GroupNodesByYear | src/pages/notes/index.tsx:59-70 | each group is non-empty and holds the input documents of its year, in input order |
| NotesQuery.GroupKeysDistinct | src/pages/notes/index.tsx:59 | no two groups share a year |
| NotesQuery.GroupKeysComplete | src/pages/notes/index.tsx:59 | every year of an input document has a group |
| NotesQuery.WithYearNewestFirst | src/pages/notes/index.tsx:56-59 | taking the documents of one year out of a newest-first list keeps them newest first |
| NotesQuery.SortedMembers | src/pages/notes/index.tsx:56-57 | the sorted documents are exactly the published ones |
| NotesQuery.NotesIndexOnlyPublished | src/pages/notes/index.tsx:57 | a document whose slug is null is in no group |
| NotesQuery.NotesIndex | src/pages/notes/index.tsx:55-59 | the whole `allMdx(sort, filter) { group }` query. Its groups partition the published documents (`NotesIndexPartition`), are keyed by year (`NotesIndexKeys`), and list each year newest first (`NotesIndexNewestFirst`) |
| NotesQuery.NotesIndexPartition | src/pages/notes/index.tsx:55-59 | the groups together hold every published document exactly as often as the input does |
| NotesQuery.NotesIndexExactlyOneGroup | src/pages/notes/index.tsx:55-59 | every published document lies in one group and in no other |
| NotesQuery.NotesIndexKeys | src/pages/notes/index.tsx:59-70 | each document's year equals its group's `fieldValue`; keys are distinct; every published year has a group; every key is a published document's year |
| NotesQuery.NotesIndexNewestFirst | src/pages/notes/index.tsx:56-59 | within each group the documents are newest first |
| NotesQuery.NotesIndexYearOfDate | src/pages/notes/index.tsx:55-59 | when the build step derived every year, each group's key is the year of each of its documents' dates |
| NotesPage.Blurb | src/pages/notes/index.tsx:40 | the shown text is the description when it is non-empty, and the excerpt when it is missing or empty |
| NotesPage.EntryOf | src/pages/notes/index.tsx:29-40 | a list item shows the note's date and title, links to its slug unchanged and shows its blurb |
| NotesPage.Entries | src/pages/notes/index.tsx:29 | one list item per note of the group, in order |
| NotesPage.SortGroups | src/pages/notes/index.tsx:21-22 | the in-place sort leaves the groups in non-increasing year order and only reorders them |
| NotesPage.SortedCopy | src/pages/notes/index.tsx:21-22 | the sorted groups are a reordering of the query's groups in non-increasing year order |
| NotesPage.DistinctKeysPermutation | src/pages/notes/index.tsx:22 | reordering groups with distinct years keeps the years distinct |
| NotesPage.ReorderedGroups | src/pages/notes/index.tsx:21-23 | groups with distinct years, sorted, are in strictly decreasing year order and are the same groups |
| NotesPage.SectionOf | src/pages/notes/index.tsx:24-29 | a section is headed by its group's `fieldValue` and lists its group's notes |
| NotesPage.SectionsOf | src/pages/notes/index.tsx:23 | one section per group, in order |
| NotesPage.SectionYearsDecrease | src/pages/notes/index.tsx:21-26 | the year headings are strictly decreasing |
| NotesPage.SectionYearsPublished | src/pages/notes/index.tsx:21-26 | every year heading is the year of a published note |
| NotesPage.SectionYearsComplete | src/pages/notes/index.tsx:21-26 | every published note's year has a heading |
| NotesPage.SectionEntriesKept | src/pages/notes/index.tsx:21-29 | each section lists the sorted notes of its year |
| NotesPage.NotesIndexGroups | src/pages/notes/index.tsx:53-73 | the query result has distinct years and exactly the published years; each group holds the sorted published notes of its year |
| NotesPage.ShownSections | src/pages/notes/index.tsx:21-46 | after any reordering into non-increasing years, the sections have strictly decreasing headings. They carry exactly the published years. Each lists the notes of its year in the order of the newest-first list `sorted`, and so newest first |
| NotesPage.NotesPageSections | src/pages/notes/index.tsx:20-47 | the page shows one section per published year, strictly newest year first. Each section lists that year's published notes newest first |
| NotesPage.NotesHead | src/pages/notes/index.tsx:78-84 | the props the notes page passes to `Seo`: a title, a description and a pathname, with no image or type. `NotesHeadExample` gives the head they produce |
| NotesPage.NotesHeadExample | src/pages/notes/index.tsx:78-84 | with the site's configuration the notes page is titled "Notes", a bar and "yukiisbo.red" at https://yukiisbo.red/notes, with its own description and the site's image and type |
| Seo.Compose | src/components/seo.tsx:27-33 | each head value is the page's value when given and non-empty, and the site's default otherwise; the title gains a bar and the site title; image and url are prefixed by the site url |
| Seo.TitleNamesPage | src/components/seo.tsx:28 | the title is the site title exactly when the page gives none; otherwise the page title and, after a bar, the site title can be read back from it |
| Seo.AbsoluteUrls | src/components/seo.tsx:30-32 | image and url start with the site url, followed by the image path and the page path (empty when none) |
| Seo.SiteConfigNeverEmpty | gatsby-config.ts:4-11 | with the configured defaults the title, description, type, image and url are never empty |
| Seo.PropertyTags | src/components/seo.tsx:38-48 | of the tags the component writes, the first six `<meta>` tags use `name` and the last five, the Open Graph ones, use `property` |
| Seo.MetaAttributes | src/components/seo.tsx:38-48 | the `property` attribute is used exactly on the tags whose text starts with "og:", the others use `name`; no two tags share an attribute text |
| Seo.HeadTags | src/components/seo.tsx:35-51 | the component writes thirteen tags |
| Seo.TagsOf | src/components/seo.tsx:36-50 | thirteen tags filled from the composed values, in source order |
| Seo.TitleTags | src/components/seo.tsx:37-45 | the title tag, `twitter:title` and `og:title` carry the composed title |
| Seo.DescriptionTags | src/components/seo.tsx:38-46 | `description`, `twitter:description` and `og:description` carry the composed description |
| Seo.ImageTags | src/components/seo.tsx:39-47 | `image`, `twitter:image` and `og:image` carry the composed image |
| Seo.AuthorTypeUrlTags | src/components/seo.tsx:40-48 | `author` carries the site author, `og:type` the composed type and `og:url` the composed url |
| Seo.HeadTagsAgree | src/components/seo.tsx:37-48 | the three titles agree, and so do the three descriptions and the three images. The author is always the site's author. `og:type` and `og:url` carry the composed type and url |

## Left out

- Rendering: React/JSX markup, class names and layout (`Layout`, headings, the
  HOME link) are left out. The model keeps only the values the page shows.
- The About, 404 and home pages, the tailwind configuration, image optimisation
  and plugin configuration are outside the modelled core.
- The content layer's GraphQL engine and `useStaticQuery` are left out. The
  query is modelled by its declared filter, sort and grouping. The site
  metadata is passed in as a record.
- `marked.parse` is not modelled. It is the parameter `render`, and the model
  fixes only that the stored html is `render(body)`.
- GatsbyNode.Node.OnCreateNode: requires a well-formed `YYYY-MM-DD` date on
  `Mdx` nodes. JavaScript's parsing of other date texts (an invalid date gives
  `NaN` as the year) is not modelled.
- GatsbyNode.Node.OnCreateNode: the year is the written year (`YearOf`), the
  corrected reading of lines 12-13. The code as written uses the build
  machine's time zone; see Findings.
- The build step's time zone is not modelled, nor is any clock. It is an
  explicit `offsetMinutes` parameter in `Dates.LocalYearOfUtcMidnight`
  only.
- `createNodeField` rules on who may set which field, and the `fields.`
  prefix, are left out. A node's fields are a plain name-to-value sequence.
- NotesQuery.GroupByYear: the framework's order of the groups is not
  documented. The model emits them in order of first appearance. Nothing
  proved depends on that order, since the page proofs hold for any
  reordering.
- NotesQuery.SortKey: documents without a well-formed date get key 0 and sort
  as oldest. The framework's order for such dates is not modelled.
- NotesQuery.SortByDateDesc: that documents of the same date keep their input
  order is not stated as a property.
- The group key `fieldValue` is a GraphQL string that the page subtracts
  numerically. It is modelled as the integer year.
- The favicon url is a parameter of `Seo.HeadTags`. Bundling the image is
  not modelled.
- React's handling of duplicate `key` attributes and the `id` of a list item
  are not modelled.

## Findings

| source | as written | input that shows it | evidently intended | confidence | as-written member | corrected member |
|---|---|---|---|---|---|---|
| gatsby-node.ts:12-13 | `new Date("YYYY-MM-DD")` is midnight UTC, but `getFullYear()` reads the local year, so west of UTC a 1 January note is filed under the previous year (`Dates.LocalYearDiffers`, `Dates.NewYearWestOfUtc`) | date "2024-01-01" on a build machine at UTC-5 gives year 2023 | the year written in the date, 2024 | medium, not executed | Dates.LocalYearOfUtcMidnight | Dates.YearTextOfYearOf |
