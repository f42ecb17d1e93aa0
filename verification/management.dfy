/**
 * The file-backed post repository of internal/application: GetPost reads and
 * renders one content file, GetPosts lists a directory leniently, and
 * UpdatePost writes a post back as a front-matter block followed by its body.
 */
module Management {
  import opened Results
  import opened Text
  import opened Paths
  import opened Models
  import opened FileSystem
  import opened Listing
  import opened Sorting

  /**
   * GetPost: open the file, split off its front matter, render the rest to
   * HTML. The first failing step's error is the result.
   */
  function GetPost(disk: Disk, codecs: Codecs, path: string): (r: Result<Post>)
    ensures path !in disk.files ==> r == Err(NoSuchFile(path))
    ensures path in disk.files && codecs.parse(disk.files[path]).Err? ==>
      r == Err(codecs.parse(disk.files[path]).error)
    ensures (path in disk.files && codecs.parse(disk.files[path]).Ok?
             && codecs.render(codecs.parse(disk.files[path]).value.1).Err?) ==>
      r == Err(codecs.render(codecs.parse(disk.files[path]).value.1).error)
    ensures r.Ok? <==>
      path in disk.files && codecs.parse(disk.files[path]).Ok?
      && codecs.render(codecs.parse(disk.files[path]).value.1).Ok?
    ensures r.Ok? ==>
      && r.value.fileName == Base(path) && r.value.filePath == path
      && r.value.metadata == codecs.parse(disk.files[path]).value.0
      && r.value.content == codecs.render(codecs.parse(disk.files[path]).value.1).value
  {
    var text :- Open(disk, path);
    var parsed :- codecs.parse(text);
    var html :- codecs.render(parsed.1);
    Ok(Post(Base(path), path, parsed.0, html))
  }

  /** What the listing loop keeps for one path: the post, or `Post{}` when GetPost failed. */
  function Loader(disk: Disk, codecs: Codecs): string -> Post
  {
    path => GetPost(disk, codecs, path).GetOr(ZeroPost)
  }

  /**
   * GetPosts: every ".md"/".markdown" entry of `dir` contributes one post,
   * the zero post when it could not be loaded, and the posts come out newest
   * date first. Only an empty or missing directory is an error.
   */
  method GetPosts(disk: Disk, codecs: Codecs, dir: string) returns (r: Result<seq<Post>>)
    ensures dir == [] ==> r == Err(EmptyDirectoryPath)
    ensures dir != [] && dir !in disk.dirs ==> r == Err(NoSuchDirectory(dir))
    ensures dir != [] && dir in disk.dirs ==>
      && r.Ok?
      && multiset(r.value) == multiset(LoadEach(dir, Markdown(disk.dirs[dir]), Loader(disk, codecs)))
      && |r.value| == |Markdown(disk.dirs[dir])|
      && DescendingBy(r.value, PostDate)
  {
    r := ListLenient(disk, dir, Loader(disk, codecs), PostDate);
  }

  /** A post that could not be loaded sorts after every dated post. */
  lemma ZeroPostsLast(posts: seq<Post>, i: nat, j: nat)
    requires DescendingBy(posts, PostDate)
    requires i < j < |posts| && posts[i] == ZeroPost
    ensures PostDate(posts[j]) == ""
  {
    EmptyKeysLast(posts, PostDate, i, j);
  }

  // ---------------------------------------------------------------------------
  // Writing a post back
  // ---------------------------------------------------------------------------

  /** The file UpdatePost writes: the marshalled metadata between two "---" lines, then the body. */
  function Frame(meta: string, body: string): string
  {
    "---\n" + meta + "---\n" + body
  }

  /**
   * UpdatePost: marshal the metadata; if that fails nothing is written,
   * otherwise the file at the post's path is replaced by the framed text.
   */
  function UpdatePost(disk: Disk, codecs: Codecs, post: Post): (r: Result<Disk>)
    ensures codecs.marshal(post.metadata).Err? ==> r == Err(codecs.marshal(post.metadata).error)
    ensures codecs.marshal(post.metadata).Ok? ==>
      && (r.Ok? <==> CanWrite(disk, post.filePath))
      && (r.Err? ==> r.error == CannotWrite(post.filePath))
    ensures r.Ok? ==>
      && r.value.files == disk.files[post.filePath := Frame(codecs.marshal(post.metadata).value, post.content)]
      && r.value.dirs.Keys == disk.dirs.Keys
      && Base(post.filePath) in r.value.dirs[Dir(post.filePath)]
      && r.value.dirs[Dir(post.filePath)] ==
           (if Base(post.filePath) in disk.dirs[Dir(post.filePath)] then disk.dirs[Dir(post.filePath)]
            else disk.dirs[Dir(post.filePath)] + [Base(post.filePath)])
      && forall d :: d in disk.dirs && d != Dir(post.filePath) ==> r.value.dirs[d] == disk.dirs[d]
  {
    var meta :- codecs.marshal(post.metadata);
    WriteFile(disk, post.filePath, Frame(meta, post.content))
  }

  /** The framed file holds the metadata right after the opening line and ends with the body. */
  lemma FrameHolds(meta: string, body: string)
    ensures OccursAt(Frame(meta, body), meta, 4)
    ensures OccursAt(Frame(meta, body), body, |Frame(meta, body)| - |body|)
  {
    var file := Frame(meta, body);
    assert file[4..4 + |meta|] == meta;
    assert file[|file| - |body|..] == body;
  }

  /** Writing two posts to the same path leaves the disk as writing only the second would. */
  lemma LastWriteWins(disk: Disk, codecs: Codecs, p: Post, q: Post)
    requires p.filePath == q.filePath
    requires UpdatePost(disk, codecs, p).Ok? && codecs.marshal(q.metadata).Ok?
    ensures UpdatePost(UpdatePost(disk, codecs, p).value, codecs, q) == UpdatePost(disk, codecs, q)
  {
    var path, parent, name := p.filePath, Dir(p.filePath), Base(p.filePath);
    var first := Frame(codecs.marshal(p.metadata).value, p.content);
    var second := Frame(codecs.marshal(q.metadata).value, q.content);
    var listing := disk.dirs[parent];
    var listing' := if name in listing then listing else listing + [name];
    var d1 := Disk(disk.files[path := first], disk.dirs[parent := listing']);
    assert UpdatePost(disk, codecs, p) == WriteFile(disk, path, first) == Ok(d1);
    assert UpdatePost(d1, codecs, q) == WriteFile(d1, path, second);
    assert d1.dirs[parent] == listing' && name in listing';
    assert d1.dirs[parent := listing'] == d1.dirs;
    assert d1.dirs.Keys == disk.dirs.Keys;
    assert CanWrite(d1, path);
    assert d1.files[path := second] == disk.files[path := second];
    assert WriteFile(d1, path, second) == Ok(Disk(disk.files[path := second], disk.dirs[parent := listing']));
  }

  // ---------------------------------------------------------------------------
  // Reading the frame back
  // ---------------------------------------------------------------------------

  /** A "---" line starts at index `k` of `text`. */
  predicate DelimiterAt(text: string, k: int)
  {
    OccursAt(text, "---\n", k) && 0 < k && text[k - 1] == '\n'
  }

  /** No line of `meta` is "---". */
  predicate NoDelimiterLine(meta: string)
  {
    forall j :: 0 <= j < |meta| && (j == 0 || meta[j - 1] == '\n') ==> !OccursAt(meta, "---\n", j)
  }

  /** The first "---" line at or after `k`. */
  function FindClosing(text: string, k: nat): (r: Option<nat>)
    decreases |text| - k
    ensures r.Some? ==> k <= r.value && DelimiterAt(text, r.value)
    ensures r.Some? ==> forall j :: k <= j < r.value ==> !DelimiterAt(text, j)
    ensures r.None? ==> forall j :: k <= j ==> !DelimiterAt(text, j)
  {
    if k + 4 > |text| then None
    else if DelimiterAt(text, k) then Some(k)
    else FindClosing(text, k + 1)
  }

  /**
   * How a front-matter reader takes a file apart: an opening "---" line, the
   * metadata up to the next "---" line, and the body after it.
   */
  function SplitFrontMatter(text: string): Option<(string, string)>
  {
    if |text| < 4 || text[..4] != "---\n" then None
    else match FindClosing(text, 4)
      case None => None
      case Some(k) => Some((text[4..k], text[k + 4..]))
  }

  /**
   * The framed file splits back into the metadata and the body, provided the
   * metadata is empty or ends with a newline and has no "---" line of its
   * own (YAML output of a struct ends with a newline).
   */
  lemma FrameRoundTrip(meta: string, body: string)
    requires meta == [] || meta[|meta| - 1] == '\n'
    requires NoDelimiterLine(meta)
    ensures SplitFrontMatter(Frame(meta, body)) == Some((meta, body))
  {
    var text := Frame(meta, body);
    var k := 4 + |meta|;
    assert text[..4] == "---\n";
    assert text[k..k + 4] == "---\n";
    assert text[k - 1] == '\n';
    forall j | 4 <= j < k
      ensures !DelimiterAt(text, j)
    {
      NotDelimiterInside(meta, body, j);
    }
    FindClosingFinds(text, 4, k);
    assert text[4..k] == meta;
    assert text[k + 4..] == body;
  }

  lemma NotDelimiterInside(meta: string, body: string, j: int)
    requires meta == [] || meta[|meta| - 1] == '\n'
    requires NoDelimiterLine(meta)
    requires 4 <= j < 4 + |meta|
    ensures !DelimiterAt(Frame(meta, body), j)
  {
    var text := Frame(meta, body);
    var m := j - 4;
    assert forall i :: 0 <= i < |meta| ==> text[4 + i] == meta[i];
    if j + 4 <= 4 + |meta| {
      assert text[j..j + 4] == meta[m..m + 4];
      assert text[j - 1] == (if m == 0 then '\n' else meta[m - 1]);
      assert (m == 0 || meta[m - 1] == '\n') ==> !OccursAt(meta, "---\n", m);
    } else {
      // the last character of `meta`, a newline, would have to be one of the dashes
      assert text[3 + |meta|] == '\n';
      assert j + 4 <= |text| ==> text[j..j + 4][3 + |meta| - j] == '\n';
    }
  }

  lemma {:induction false} FindClosingFinds(text: string, k: nat, target: nat)
    requires k <= target && DelimiterAt(text, target)
    requires forall j :: k <= j < target ==> !DelimiterAt(text, j)
    ensures FindClosing(text, k) == Some(target)
    decreases target - k
  {
    if k < target {
      FindClosingFinds(text, k + 1, target);
    }
  }

  /**
   * The front-matter library reads back what yaml.Marshal wrote: parsing
   * a framed file gives the marshalled metadata and the body.
   */
  ghost predicate Coherent(codecs: Codecs)
  {
    forall m: FrontMatter, body: string {:trigger codecs.parse(Frame(codecs.marshal(m).value, body))} ::
      codecs.marshal(m).Ok? ==> codecs.parse(Frame(codecs.marshal(m).value, body)) == Ok((m, body))
  }

  /**
   * Reading a post back after UpdatePost gives its metadata and its rendered
   * body, under the path it was written to.
   */
  lemma UpdateThenGet(disk: Disk, codecs: Codecs, post: Post)
    requires Coherent(codecs)
    requires UpdatePost(disk, codecs, post).Ok?
    ensures var got := GetPost(UpdatePost(disk, codecs, post).value, codecs, post.filePath);
      && (got.Ok? <==> codecs.render(post.content).Ok?)
      && (got.Ok? ==> got.value == Post(Base(post.filePath), post.filePath, post.metadata, codecs.render(post.content).value))
  {
    var meta := codecs.marshal(post.metadata).value;
    assert codecs.parse(Frame(meta, post.content)) == Ok((post.metadata, post.content));
  }
}
