/**
 * The SEO component (src/components/seo.tsx): it composes a page's head
 * metadata from optional per-page overrides and the site metadata, and emits
 * the `<title>`, `<meta>` and icon tags.
 *
 * The site metadata is read once from the build configuration
 * (gatsby-config.ts) and passed in as an immutable record.
 */
module Seo {
  import opened Wrappers
  import opened Js

  /** `siteMetadata`; `ogType` is the configuration's `type`. */
  datatype SiteMetadata = SiteMetadata(
    title: string,
    author: string,
    description: string,
    ogType: string,
    image: string,
    siteUrl: string)

  /** The site's configuration. */
  const SiteConfig: SiteMetadata := SiteMetadata(
    "yukiisbo.red",
    "Yuki Langley",
    "The personal website of a computer hobbyist dork",
    "website",
    "/profile.png",
    "https://yukiisbo.red")

  /** The component's optional properties; `ogType` is its `type`. */
  datatype SeoProps = SeoProps(
    title: Option<string>,
    description: Option<string>,
    image: Option<string>,
    ogType: Option<string>,
    pathname: Option<string>)

  /** The `seo` object the tags are filled from. */
  datatype SeoRecord = SeoRecord(title: string, description: string, image: string, ogType: string, url: string)

  /** The head values of a page with overrides `props`. */
  function Compose(props: SeoProps, site: SiteMetadata): (seo: SeoRecord)
    ensures Truthy(props.title) ==> seo.title == props.title.value + " | " + site.title
    ensures !Truthy(props.title) ==> seo.title == site.title
    ensures Truthy(props.description) ==> seo.description == props.description.value
    ensures !Truthy(props.description) ==> seo.description == site.description
    ensures Truthy(props.image) ==> seo.image == site.siteUrl + props.image.value
    ensures !Truthy(props.image) ==> seo.image == site.siteUrl + site.image
    ensures Truthy(props.ogType) ==> seo.ogType == props.ogType.value
    ensures !Truthy(props.ogType) ==> seo.ogType == site.ogType
    ensures Truthy(props.pathname) ==> seo.url == site.siteUrl + props.pathname.value
    ensures !Truthy(props.pathname) ==> seo.url == site.siteUrl
  {
    SeoRecord(
      if Truthy(props.title) then props.title.value + " | " + site.title else site.title,
      Or(props.description, site.description),
      site.siteUrl + Or(props.image, site.image),
      Or(props.ogType, site.ogType),
      site.siteUrl + Or(props.pathname, ""))
  }

  /** The title is the site title exactly when the page gives none; otherwise the page's title can be read back. */
  lemma TitleNamesPage(props: SeoProps, site: SiteMetadata)
    ensures Compose(props, site).title == site.title <==> !Truthy(props.title)
    ensures Truthy(props.title) ==>
      && Compose(props, site).title[..|props.title.value|] == props.title.value
      && Compose(props, site).title[|props.title.value|..] == " | " + site.title
  {
    var t := Compose(props, site).title;
    if Truthy(props.title) {
      assert |t| > |site.title|;
    }
  }

  /** Image and url always start with the site url, and what follows is the image path and the page path. */
  lemma AbsoluteUrls(props: SeoProps, site: SiteMetadata)
    ensures site.siteUrl <= Compose(props, site).image
    ensures site.siteUrl <= Compose(props, site).url
    ensures Compose(props, site).image[|site.siteUrl|..] == Or(props.image, site.image)
    ensures Compose(props, site).url[|site.siteUrl|..] == Or(props.pathname, "")
  {
    var seo := Compose(props, site);
    assert seo.image == site.siteUrl + Or(props.image, site.image);
    assert seo.url == site.siteUrl + Or(props.pathname, "");
  }

  /** With the configured defaults no head value is ever empty. */
  lemma SiteConfigNeverEmpty(props: SeoProps)
    ensures Compose(props, SiteConfig).title != ""
    ensures Compose(props, SiteConfig).description != ""
    ensures Compose(props, SiteConfig).ogType != ""
    ensures Compose(props, SiteConfig).image != "" && Compose(props, SiteConfig).url != ""
  {
    OrNonEmpty(props.description, SiteConfig.description);
    OrNonEmpty(props.ogType, SiteConfig.ogType);
  }

  /** The `<meta>` tags the component writes, one constructor per attribute value. */
  datatype MetaKey =
    | Description | Image | Author
    | TwitterTitle | TwitterDescription | TwitterImage
    | OgType | OgTitle | OgDescription | OgImage | OgUrl
  {
    /** Open Graph tags use the `property` attribute, the others `name`. */
    predicate IsProperty() {
      this in {OgType, OgTitle, OgDescription, OgImage, OgUrl}
    }

    /** The attribute's text. */
    function Text(): string {
      match this
      case Description => "description"
      case Image => "image"
      case Author => "author"
      case TwitterTitle => "twitter:title"
      case TwitterDescription => "twitter:description"
      case TwitterImage => "twitter:image"
      case OgType => "og:type"
      case OgTitle => "og:title"
      case OgDescription => "og:description"
      case OgImage => "og:image"
      case OgUrl => "og:url"
    }
  }

  /**
   * The component writes `property` exactly on the Open Graph tags, the ones
   * whose attribute text starts with "og:", and no two tags share a text.
   */
  lemma MetaAttributes(k: MetaKey, other: MetaKey)
    ensures k.IsProperty() <==> "og:" <= k.Text()
    ensures k.Text() == other.Text() ==> k == other
  {
    if !k.IsProperty() {
      assert k.Text()[0] != 'o';
    }
    match k
    case Description =>
    case Image =>
    case Author =>
    case TwitterTitle =>
    case TwitterDescription =>
    case TwitterImage =>
    case OgType =>
    case OgTitle =>
    case OgDescription =>
    case OgImage =>
    case OgUrl =>
  }

  datatype HeadTag =
    | TitleTag(text: string)
    | Meta(key: MetaKey, content: string)
    | IconLink(href: string)

  /** The tags the component renders; `favicon` is the bundled icon's url. */
  function HeadTags(props: SeoProps, site: SiteMetadata, favicon: string): (tags: seq<HeadTag>)
    ensures |tags| == 13
  {
    TagsOf(Compose(props, site), site.author, favicon)
  }

  /** The tags filled from a composed `seo` record and the site's author. */
  function TagsOf(seo: SeoRecord, author: string, favicon: string): (tags: seq<HeadTag>)
    ensures |tags| == 13
  {
    [ TitleTag(seo.title),
      Meta(Description, seo.description),
      Meta(Image, seo.image),
      Meta(Author, author),
      Meta(TwitterTitle, seo.title),
      Meta(TwitterDescription, seo.description),
      Meta(TwitterImage, seo.image),
      Meta(OgType, seo.ogType),
      Meta(OgTitle, seo.title),
      Meta(OgDescription, seo.description),
      Meta(OgImage, seo.image),
      Meta(OgUrl, seo.url),
      IconLink(favicon) ]
  }

  /** The text of the first `<title>`. */
  function TitleOf(tags: seq<HeadTag>): Option<string>
  {
    if tags == [] then None
    else if tags[0].TitleTag? then Some(tags[0].text)
    else TitleOf(tags[1..])
  }

  /** The content of the first `<meta>` tag with that key. */
  function MetaContent(tags: seq<HeadTag>, key: MetaKey): Option<string>
  {
    if tags == [] then None
    else if tags[0].Meta? && tags[0].key == key then Some(tags[0].content)
    else MetaContent(tags[1..], key)
  }

  /** The first `<meta>` tag of a key decides its content. */
  lemma {:induction false} MetaContentAt(tags: seq<HeadTag>, k: nat)
    requires k < |tags| && tags[k].Meta?
    requires forall j :: 0 <= j < k ==> !(tags[j].Meta? && tags[j].key == tags[k].key)
    ensures MetaContent(tags, tags[k].key) == Some(tags[k].content)
  {
    if k > 0 {
      MetaContentAt(tags[1..], k - 1);
    }
  }

  /** Where each tag sits in the component's output. */
  lemma TagsLayout(seo: SeoRecord, author: string, favicon: string)
    ensures var tags := TagsOf(seo, author, favicon);
      && tags[0] == TitleTag(seo.title)
      && tags[1] == Meta(Description, seo.description)
      && tags[2] == Meta(Image, seo.image)
      && tags[3] == Meta(Author, author)
      && tags[4] == Meta(TwitterTitle, seo.title)
      && tags[5] == Meta(TwitterDescription, seo.description)
      && tags[6] == Meta(TwitterImage, seo.image)
      && tags[7] == Meta(OgType, seo.ogType)
      && tags[8] == Meta(OgTitle, seo.title)
      && tags[9] == Meta(OgDescription, seo.description)
      && tags[10] == Meta(OgImage, seo.image)
      && tags[11] == Meta(OgUrl, seo.url)
      && tags[12] == IconLink(favicon)
  {
  }

  /** The position of a key's tag in `TagsOf`. */
  ghost function TagIndex(k: MetaKey): nat
  {
    match k
    case Description => 1
    case Image => 2
    case Author => 3
    case TwitterTitle => 4
    case TwitterDescription => 5
    case TwitterImage => 6
    case OgType => 7
    case OgTitle => 8
    case OgDescription => 9
    case OgImage => 10
    case OgUrl => 11
  }

  /** The title comes first and each `<meta>` tag sits at its key's position. */
  lemma TagPositions(seo: SeoRecord, author: string, favicon: string)
    ensures var tags := TagsOf(seo, author, favicon);
      && tags[0].TitleTag?
      && forall i :: 1 <= i < 12 ==> tags[i].Meta? && TagIndex(tags[i].key) == i
  {
    TagsLayout(seo, author, favicon);
  }

  /**
   * The component writes `name` on the first six `<meta>` tags and `property`
   * on the last five, the Open Graph ones.
   */
  lemma PropertyTags(seo: SeoRecord, author: string, favicon: string)
    ensures var tags := TagsOf(seo, author, favicon);
      forall i :: 1 <= i < 12 ==> (tags[i].key.IsProperty() <==> 7 <= i)
  {
    var tags := TagsOf(seo, author, favicon);
    TagPositions(seo, author, favicon);
    forall i | 1 <= i < 12
      ensures tags[i].key.IsProperty() <==> 7 <= i
    {
      var k := tags[i].key;
      assert k.IsProperty() <==> 7 <= TagIndex(k);
    }
  }

  /** The three title tags carry the composed title. */
  lemma TitleTags(seo: SeoRecord, author: string, favicon: string)
    ensures var tags := TagsOf(seo, author, favicon);
      && TitleOf(tags) == Some(seo.title)
      && MetaContent(tags, TwitterTitle) == Some(seo.title)
      && MetaContent(tags, OgTitle) == Some(seo.title)
  {
    var tags := TagsOf(seo, author, favicon);
    TagPositions(seo, author, favicon);
    MetaContentAt(tags, 4);
    MetaContentAt(tags, 8);
  }

  /** The three description tags carry the composed description. */
  lemma DescriptionTags(seo: SeoRecord, author: string, favicon: string)
    ensures var tags := TagsOf(seo, author, favicon);
      && MetaContent(tags, Description) == Some(seo.description)
      && MetaContent(tags, TwitterDescription) == Some(seo.description)
      && MetaContent(tags, OgDescription) == Some(seo.description)
  {
    var tags := TagsOf(seo, author, favicon);
    TagPositions(seo, author, favicon);
    MetaContentAt(tags, 1);
    MetaContentAt(tags, 5);
    MetaContentAt(tags, 9);
  }

  /** The three image tags carry the composed image. */
  lemma ImageTags(seo: SeoRecord, author: string, favicon: string)
    ensures var tags := TagsOf(seo, author, favicon);
      && MetaContent(tags, Image) == Some(seo.image)
      && MetaContent(tags, TwitterImage) == Some(seo.image)
      && MetaContent(tags, OgImage) == Some(seo.image)
  {
    var tags := TagsOf(seo, author, favicon);
    TagPositions(seo, author, favicon);
    MetaContentAt(tags, 2);
    MetaContentAt(tags, 6);
    MetaContentAt(tags, 10);
  }

  /** The author, type and url tags. */
  lemma AuthorTypeUrlTags(seo: SeoRecord, author: string, favicon: string)
    ensures var tags := TagsOf(seo, author, favicon);
      && MetaContent(tags, Author) == Some(author)
      && MetaContent(tags, OgType) == Some(seo.ogType)
      && MetaContent(tags, OgUrl) == Some(seo.url)
  {
    var tags := TagsOf(seo, author, favicon);
    TagPositions(seo, author, favicon);
    MetaContentAt(tags, 3);
    MetaContentAt(tags, 7);
    MetaContentAt(tags, 11);
  }

  /**
   * The page title, the Twitter title and the Open Graph title agree, and so
   * do the three descriptions and the three images; the author is always the
   * site's author, whatever the page passes.
   */
  lemma HeadTagsAgree(props: SeoProps, site: SiteMetadata, favicon: string)
    ensures var tags := HeadTags(props, site, favicon);
      && TitleOf(tags) == Some(Compose(props, site).title)
      && MetaContent(tags, TwitterTitle) == TitleOf(tags)
      && MetaContent(tags, OgTitle) == TitleOf(tags)
    ensures var tags := HeadTags(props, site, favicon);
      && MetaContent(tags, Description) == Some(Compose(props, site).description)
      && MetaContent(tags, TwitterDescription) == MetaContent(tags, Description)
      && MetaContent(tags, OgDescription) == MetaContent(tags, Description)
    ensures var tags := HeadTags(props, site, favicon);
      && MetaContent(tags, Image) == Some(Compose(props, site).image)
      && MetaContent(tags, TwitterImage) == MetaContent(tags, Image)
      && MetaContent(tags, OgImage) == MetaContent(tags, Image)
    ensures var tags := HeadTags(props, site, favicon);
      && MetaContent(tags, Author) == Some(site.author)
      && MetaContent(tags, OgType) == Some(Compose(props, site).ogType)
      && MetaContent(tags, OgUrl) == Some(Compose(props, site).url)
  {
    var seo := Compose(props, site);
    TitleTags(seo, site.author, favicon);
    DescriptionTags(seo, site.author, favicon);
    ImageTags(seo, site.author, favicon);
    AuthorTypeUrlTags(seo, site.author, favicon);
  }
}
