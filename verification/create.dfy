/**
 * CreatePost: a new post is written into the content directory under a file
 * name derived from its slug, or from its title when the slug is empty. The
 * function's own code is not part of this model; the rule is the one that
 * internal/application/management_test.go pins down, and the write is
 * UpdatePost's.
 */
module Creation {
  import opened Results
  import opened Paths
  import opened Models
  import opened FileSystem
  import opened Listing
  import opened Slugs
  import Management

  /** The stem of the file name: the slug when one is set, the slug of the title otherwise. */
  function Stem(meta: FrontMatter): string
  {
    if meta.slug != [] then meta.slug else Slug(meta.title)
  }

  /**
   * The file name of a new post. It always passes the listing's extension
   * test, and it holds no separator unless a custom slug brings one.
   */
  function FileName(meta: FrontMatter): (r: string)
    ensures IsPostFile(r)
    ensures Separator !in meta.slug ==> Separator !in r
  {
    MdSuffixIsPostFile(Stem(meta));
    SlugAlphabet(meta.title);
    Stem(meta) + ".md"
  }

  /**
   * The post as CreatePost writes it: placed in `dir` under FileName, with
   * the stem written back as its slug.
   */
  function Placed(dir: string, post: Post): Post
  {
    post.(filePath := JoinPath(dir, FileName(post.metadata)), metadata := post.metadata.(slug := Stem(post.metadata)))
  }

  /** The written-back slug names the same file: creating the stored post again targets the same path. */
  lemma PlacedIsStable(dir: string, post: Post)
    ensures FileName(Placed(dir, post).metadata) == FileName(post.metadata)
    ensures Placed(dir, Placed(dir, post)) == Placed(dir, post)
  {
  }

  /** CreatePost: UpdatePost of the placed post. */
  function CreatePost(disk: Disk, codecs: Codecs, dir: string, post: Post): (r: Result<Disk>)
    ensures r.Ok? ==> JoinPath(dir, FileName(post.metadata)) in r.value.files
    ensures r.Ok? ==> forall path :: path in disk.files && path != JoinPath(dir, FileName(post.metadata)) ==>
      path in r.value.files && r.value.files[path] == disk.files[path]
  {
    Management.UpdatePost(disk, codecs, Placed(dir, post))
  }

  /** Creating a post in a directory that does not exist fails. */
  lemma CreateIntoMissingDirectory(disk: Disk, codecs: Codecs, dir: string, post: Post)
    requires dir != [] && dir !in disk.dirs
    requires Separator !in post.metadata.slug
    ensures CreatePost(disk, codecs, dir, post).Err?
  {
    JoinPathParts(dir, FileName(post.metadata));
  }

  /**
   * Creating a post in an existing directory succeeds when its metadata
   * encodes and no directory already has the new file's path.
   */
  lemma CreateIntoExistingDirectory(disk: Disk, codecs: Codecs, dir: string, post: Post)
    requires dir != [] && dir in disk.dirs
    requires Separator !in post.metadata.slug
    requires JoinPath(dir, FileName(post.metadata)) !in disk.dirs
    requires codecs.marshal(Placed(dir, post).metadata).Ok?
    ensures CreatePost(disk, codecs, dir, post).Ok?
  {
    JoinPathParts(dir, FileName(post.metadata));
  }

  /**
   * After a successful create the directory lists the new file, and the
   * listing filter keeps it; no other directory's listing changes.
   */
  lemma CreatedIsListed(disk: Disk, codecs: Codecs, dir: string, post: Post)
    requires dir != [] && Separator !in post.metadata.slug
    requires CreatePost(disk, codecs, dir, post).Ok?
    ensures var after := CreatePost(disk, codecs, dir, post).value;
      && dir in after.dirs
      && FileName(post.metadata) in Markdown(after.dirs[dir])
      && forall d :: d in disk.dirs && d != dir ==> after.dirs[d] == disk.dirs[d]
  {
    var name := FileName(post.metadata);
    JoinPathParts(dir, name);
    MarkdownKeepsPostFiles(CreatePost(disk, codecs, dir, post).value.dirs[dir]);
  }

  /**
   * Reading the created file back gives the post's metadata with the slug
   * filled in, when the front-matter reader reads what the YAML writer wrote.
   */
  lemma CreateThenGet(disk: Disk, codecs: Codecs, dir: string, post: Post)
    requires Management.Coherent(codecs)
    requires dir != [] && Separator !in post.metadata.slug
    requires CreatePost(disk, codecs, dir, post).Ok?
    ensures var got := Management.GetPost(CreatePost(disk, codecs, dir, post).value, codecs, JoinPath(dir, FileName(post.metadata)));
      && (got.Ok? <==> codecs.render(post.content).Ok?)
      && (got.Ok? ==>
        && got.value.metadata == post.metadata.(slug := Stem(post.metadata))
        && got.value.fileName == FileName(post.metadata)
        && (post.metadata.slug != [] ==> got.value.metadata.slug == post.metadata.slug)
        && (post.metadata.slug == [] ==> got.value.metadata.slug == Slug(post.metadata.title)))
  {
    JoinPathParts(dir, FileName(post.metadata));
    Management.UpdateThenGet(disk, codecs, Placed(dir, post));
  }

  /** Two posts with the same file name: the second create overwrites the first. */
  lemma CreateOverwrites(disk: Disk, codecs: Codecs, dir: string, p: Post, q: Post)
    requires FileName(p.metadata) == FileName(q.metadata)
    requires CreatePost(disk, codecs, dir, p).Ok? && codecs.marshal(Placed(dir, q).metadata).Ok?
    ensures CreatePost(CreatePost(disk, codecs, dir, p).value, codecs, dir, q) == CreatePost(disk, codecs, dir, q)
  {
    Management.LastWriteWins(disk, codecs, Placed(dir, p), Placed(dir, q));
  }

  /** A custom slug names the file whatever the title says. */
  lemma CustomSlugNamesFile(meta: FrontMatter)
    requires meta.slug == "custom-slug"
    ensures FileName(meta) == "custom-slug.md"
  {
  }

  lemma AutoGeneratedFileName(meta: FrontMatter)
    requires meta.title == "Auto Generated Slug Post" && meta.slug == ""
    ensures FileName(meta) == "auto-generated-slug-post.md"
  {
    AutoGeneratedSlug();
    TitleNamesFile(meta, "auto-generated-slug-post");
  }

  lemma AutoGeneratedSlug()
    ensures Slug("Auto Generated Slug Post") == "auto-generated-slug-post"
  {
    Charwise("Auto Generated Slug Post", "auto-generated-slug-post");
  }

  /** Trailing punctuation vanishes from the file name. */
  lemma SpecialCharactersFileName(meta: FrontMatter)
    requires meta.title == "Post With Special Characters!@#$%" && meta.slug == ""
    ensures FileName(meta) == "post-with-special-characters.md"
  {
    WordsOfSpecial();
    MarksOfSpecial();
    Concat2(meta.title, "Post With Special Characters", "!@#$%", "post-with-special-characters", "");
    TitleNamesFile(meta, "post-with-special-characters");
  }

  lemma WordsOfSpecial()
    ensures Slug("Post With Special Characters") == "post-with-special-characters"
  {
    Charwise("Post With Special Characters", "post-with-special-characters");
  }

  lemma MarksOfSpecial()
    ensures Slug("!@#$%") == ""
  {
    Dropped("!@#$%");
  }

  lemma Concat2(t: string, a: string, b: string, sa: string, sb: string)
    requires Slug(a) == sa && Slug(b) == sb && t == a + b
    ensures Slug(t) == sa + sb
  {
    SlugAppend(a, b);
  }

  /** Without a slug, the title's slug names the file. */
  lemma TitleNamesFile(meta: FrontMatter, stem: string)
    requires meta.slug == "" && Slug(meta.title) == stem
    ensures FileName(meta) == stem + ".md"
  {
  }

  /** An empty title with no slug gives the bare name ".md", which the listing filter still keeps. */
  lemma EmptyTitleFileName(meta: FrontMatter)
    requires meta.title == "" && meta.slug == ""
    ensures FileName(meta) == ".md"
    ensures IsPostFile(".md")
  {
  }
}
