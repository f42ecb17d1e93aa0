/** The post entities of the repository. */
module Models {

  /** The metadata block at the head of a content file; YAML keys in comments. */
  datatype FrontMatter = FrontMatter(
    title: string,         // title
    date: string,          // date
    draft: bool,           // draft
    lastModified: string,  // lastmod
    publishDate: string,   // publishDate
    slug: string,          // slug
    tags: seq<string>)     // tags

  /** A post with its front matter (types.Post, application.Post, cms.Post). */
  datatype Post = Post(
    fileName: string,
    filePath: string,
    metadata: FrontMatter,
    content: string)

  /** The flat post of the `posts` package: three front-matter fields copied out. */
  datatype FlatPost = FlatPost(
    title: string,
    filePath: string,
    date: string,
    tags: seq<string>,
    content: string)

  const ZeroFrontMatter := FrontMatter("", "", false, "", "", "", [])

  /** Go's `Post{}`. */
  const ZeroPost := Post("", "", ZeroFrontMatter, "")

  /** Go's `posts.Post{}`. */
  const ZeroFlatPost := FlatPost("", "", "", [], "")

  function PostDate(p: Post): string { p.metadata.date }

  function FlatPostDate(p: FlatPost): string { p.date }
}
