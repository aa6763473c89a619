/**
 * The content records shared by the build step and the notes listing.
 */
module Content {
  import opened Wrappers
  import opened Dates

  /** The frontmatter block of an MDX note. A note without `slug` is not published. */
  datatype Frontmatter = Frontmatter(
    title: string,
    date: string,
    slug: Option<string>,
    description: Option<string>)

  /**
   * An MDX document as the `NotesIndex` query reads it: its id, frontmatter,
   * the excerpt the content layer generates, and the derived `fields.year`.
   */
  datatype Doc = Doc(id: string, frontmatter: Frontmatter, excerpt: string, year: int)

  /** `frontmatter.slug` is not null. */
  predicate IsPublished(d: Doc) {
    d.frontmatter.slug.Some?
  }

  /** The frontmatter date is a real `YYYY-MM-DD` date. */
  predicate IsDated(d: Doc) {
    WellFormedDate(d.frontmatter.date)
  }

  /** `fields.year` holds the year of the frontmatter date, as the build step sets it. */
  predicate YearDerived(d: Doc) {
    IsDated(d) && d.year == YearOf(d.frontmatter.date)
  }
}
