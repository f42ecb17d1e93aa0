/**
 * The `posts` package: flat posts (title, path, date, tags, content) read
 * from a content directory, in two variants of GetPosts: the fail-fast one
 * of internal/posts/getposts.go, which keeps the raw markdown body, and the
 * error-swallowing one of internal/posts/getpost.go, which renders it.
 */
module Posts {
  import opened Results
  import opened Paths
  import opened Models
  import opened FileSystem
  import opened Listing
  import opened Sorting
  import Management

  /** The flat post the `posts` package keeps of a metadata-carrying post: Draft, Slug, lastmod and publishDate are dropped. */
  function Flatten(p: Post): (r: FlatPost)
  {
    FlatPost(p.metadata.title, p.filePath, p.metadata.date, p.metadata.tags, p.content)
  }

  // ---------------------------------------------------------------------------
  // internal/posts/getpost.go
  // ---------------------------------------------------------------------------

  /** posts.GetPost: open, parse the front matter, render the body; the first failure is the result. */
  function GetPost(disk: Disk, codecs: Codecs, path: string): (r: Result<FlatPost>)
    ensures path !in disk.files ==> r == Err(NoSuchFile(path))
    ensures path in disk.files && codecs.parse(disk.files[path]).Err? ==>
      r == Err(codecs.parse(disk.files[path]).error)
    ensures (path in disk.files && codecs.parse(disk.files[path]).Ok?
             && codecs.render(codecs.parse(disk.files[path]).value.1).Err?) ==>
      r == Err(codecs.render(codecs.parse(disk.files[path]).value.1).error)
    ensures r.Ok? ==> r.value.filePath == path
  {
    var text :- Open(disk, path);
    var parsed :- codecs.parse(text);
    var html :- codecs.render(parsed.1);
    Ok(FlatPost(parsed.0.title, path, parsed.0.date, parsed.0.tags, html))
  }

  /**
   * The two GetPost functions agree: the flat one fails exactly when the
   * metadata-carrying one does, with the same error, and otherwise keeps
   * the title, date, tags, path and rendered content of its post.
   */
  lemma GetPostIsFlattened(disk: Disk, codecs: Codecs, path: string)
    ensures var m := Management.GetPost(disk, codecs, path);
      GetPost(disk, codecs, path) == if m.Ok? then Ok(Flatten(m.value)) else Err(m.error)
  {
  }

  function Loader(disk: Disk, codecs: Codecs): string -> FlatPost
  {
    path => GetPost(disk, codecs, path).GetOr(ZeroFlatPost)
  }

  /**
   * posts.GetPosts of getpost.go: one flat post per ".md"/".markdown" entry,
   * the zero post where loading failed, newest date first; only an empty
   * or missing directory is an error.
   */
  method GetPosts(disk: Disk, codecs: Codecs, dir: string) returns (r: Result<seq<FlatPost>>)
    ensures dir == [] ==> r == Err(EmptyDirectoryPath)
    ensures dir != [] && dir !in disk.dirs ==> r == Err(NoSuchDirectory(dir))
    ensures dir != [] && dir in disk.dirs ==>
      && r.Ok?
      && multiset(r.value) == multiset(LoadEach(dir, Markdown(disk.dirs[dir]), Loader(disk, codecs)))
      && |r.value| == |Markdown(disk.dirs[dir])|
      && DescendingBy(r.value, FlatPostDate)
  {
    r := ListLenient(disk, dir, Loader(disk, codecs), FlatPostDate);
  }

  // ---------------------------------------------------------------------------
  // internal/posts/getposts.go
  // ---------------------------------------------------------------------------

  /** One entry of the fail-fast listing: front matter parsed, body kept as raw markdown. */
  function RawPost(disk: Disk, codecs: Codecs, path: string): (r: Result<FlatPost>)
    ensures path !in disk.files ==> r == Err(NoSuchFile(path))
    ensures path in disk.files && codecs.parse(disk.files[path]).Err? ==>
      r == Err(codecs.parse(disk.files[path]).error)
    ensures r.Ok? ==>
      var (fm, rest) := codecs.parse(disk.files[path]).value;
      r.value == FlatPost(fm.title, path, fm.date, fm.tags, rest)
  {
    var text :- Open(disk, path);
    var parsed :- codecs.parse(text);
    Ok(FlatPost(parsed.0.title, path, parsed.0.date, parsed.0.tags, parsed.1))
  }

  /** What the fail-fast loop computes over `names`, in listing order, before sorting. */
  function LoadAllRaw(disk: Disk, codecs: Codecs, dir: string, names: seq<string>): Result<seq<FlatPost>>
  {
    if names == [] then Ok([])
    else
      var init :- LoadAllRaw(disk, codecs, dir, names[..|names| - 1]);
      var name := names[|names| - 1];
      if !IsPostFile(name) then Ok(init)
      else
        var p :- RawPost(disk, codecs, JoinPath(dir, name));
        Ok(init + [p])
  }

  /** One more entry: a non-post entry changes nothing, a post entry appends its post or fails. */
  lemma LoadAllRawSnoc(disk: Disk, codecs: Codecs, dir: string, names: seq<string>, name: string)
    ensures var init, p := LoadAllRaw(disk, codecs, dir, names), RawPost(disk, codecs, JoinPath(dir, name));
      LoadAllRaw(disk, codecs, dir, names + [name]) ==
        if init.Err? then init
        else if !IsPostFile(name) then init
        else if p.Err? then Err(p.error)
        else Ok(init.value + [p.value])
  {
    assert (names + [name])[..|names|] == names;
  }

  /**
   * The fail-fast loop succeeds exactly when every post entry loads, and
   * then holds each entry's post in listing order; otherwise its error is
   * that of the first post entry that fails to load.
   */
  lemma LoadAllRawSpec(disk: Disk, codecs: Codecs, dir: string, names: seq<string>)
    ensures var r, ms := LoadAllRaw(disk, codecs, dir, names), Markdown(names);
      && (r.Ok? <==> forall i :: 0 <= i < |ms| ==> RawPost(disk, codecs, JoinPath(dir, ms[i])).Ok?)
      && (r.Ok? ==> |r.value| == |ms|)
      && (r.Ok? ==> forall i :: 0 <= i < |ms| ==> r.value[i] == RawPost(disk, codecs, JoinPath(dir, ms[i])).value)
      && (r.Err? ==> exists i :: FirstFailure(disk, codecs, dir, ms, i) && r.error == RawPost(disk, codecs, JoinPath(dir, ms[i])).error)
  {
    LoadAllRawLoads(disk, codecs, dir, names);
    LoadAllRawFails(disk, codecs, dir, names);
  }

  /** A successful loop holds one loaded post per post entry, in listing order. */
  lemma {:induction false} LoadAllRawLoads(disk: Disk, codecs: Codecs, dir: string, names: seq<string>)
    ensures var r, ms := LoadAllRaw(disk, codecs, dir, names), Markdown(names);
      r.Ok? ==>
        && |r.value| == |ms|
        && forall i :: 0 <= i < |ms| ==>
             RawPost(disk, codecs, JoinPath(dir, ms[i])).Ok? && r.value[i] == RawPost(disk, codecs, JoinPath(dir, ms[i])).value
  {
    if names != [] {
      var init := names[..|names| - 1];
      var name := names[|names| - 1];
      LoadAllRawLoads(disk, codecs, dir, init);
      assert names == init + [name];
      LoadAllRawSnoc(disk, codecs, dir, init, name);
      MarkdownSnoc(init, name);
    }
  }

  /** A failed loop failed at the first post entry that does not load, with that entry's error. */
  lemma {:induction false} LoadAllRawFails(disk: Disk, codecs: Codecs, dir: string, names: seq<string>)
    ensures var r, ms := LoadAllRaw(disk, codecs, dir, names), Markdown(names);
      r.Err? ==> exists i :: FirstFailure(disk, codecs, dir, ms, i) && r.error == RawPost(disk, codecs, JoinPath(dir, ms[i])).error
  {
    if names != [] {
      var init := names[..|names| - 1];
      var name := names[|names| - 1];
      assert names == init + [name];
      LoadAllRawSnoc(disk, codecs, dir, init, name);
      MarkdownSnoc(init, name);
      var mi, ms := Markdown(init), Markdown(names);
      if LoadAllRaw(disk, codecs, dir, init).Err? {
        LoadAllRawFails(disk, codecs, dir, init);
        var i :| FirstFailure(disk, codecs, dir, mi, i) && LoadAllRaw(disk, codecs, dir, init).error == RawPost(disk, codecs, JoinPath(dir, mi[i])).error;
        assert FirstFailure(disk, codecs, dir, ms, i);
      } else if IsPostFile(name) && RawPost(disk, codecs, JoinPath(dir, name)).Err? {
        LoadAllRawLoads(disk, codecs, dir, init);
        assert FirstFailure(disk, codecs, dir, ms, |mi|);
      }
    }
  }

  /** Entry `i` of `ms` is the first post entry that fails to load. */
  ghost predicate FirstFailure(disk: Disk, codecs: Codecs, dir: string, ms: seq<string>, i: int)
  {
    && 0 <= i < |ms|
    && RawPost(disk, codecs, JoinPath(dir, ms[i])).Err?
    && forall k :: 0 <= k < i ==> RawPost(disk, codecs, JoinPath(dir, ms[k])).Ok?
  }

  /** Once a prefix of the listing has failed, the whole listing fails with the same error. */
  lemma {:induction false} FailurePersists(disk: Disk, codecs: Codecs, dir: string, names: seq<string>, k: nat)
    requires k <= |names|
    requires LoadAllRaw(disk, codecs, dir, names[..k]).Err?
    ensures LoadAllRaw(disk, codecs, dir, names) == LoadAllRaw(disk, codecs, dir, names[..k])
    decreases |names| - k
  {
    if k < |names| {
      var init := names[..|names| - 1];
      assert init[..k] == names[..k];
      FailurePersists(disk, codecs, dir, init, k);
      var ri := LoadAllRaw(disk, codecs, dir, init);
      assert ri.Err?;
      assert LoadAllRaw(disk, codecs, dir, names) == Err(ri.error);
    } else {
      assert names[..k] == names;
    }
  }

  /**
   * posts.GetPosts of getposts.go: the first post entry that cannot be
   * opened or parsed aborts the whole call with its error; otherwise every
   * post entry contributes its raw post, newest date first.
   */
  method GetPostsFailFast(disk: Disk, codecs: Codecs, dir: string) returns (r: Result<seq<FlatPost>>)
    ensures dir == [] ==> r == Err(EmptyDirectoryPath)
    ensures dir != [] && dir !in disk.dirs ==> r == Err(NoSuchDirectory(dir))
    ensures dir != [] && dir in disk.dirs ==>
      var all := LoadAllRaw(disk, codecs, dir, disk.dirs[dir]);
      && (all.Err? ==> r == Err(all.error))
      && (all.Ok? ==> r.Ok? && multiset(r.value) == multiset(all.value) && DescendingBy(r.value, FlatPostDate))
      && (all.Ok? ==> |r.value| == |Markdown(disk.dirs[dir])|)
  {
    if dir == [] {
      return Err(EmptyDirectoryPath);
    }
    var entries :- ReadDir(disk, dir);
    var posts :- LoadAll(disk, codecs, dir, entries);
    var sorted := SortedDescending(posts, FlatPostDate);
    LoadAllRawLoads(disk, codecs, dir, entries);
    r := Ok(sorted);
  }

  /** The loop of getposts.go over the entries: stops at the first post entry that fails to load. */
  method LoadAll(disk: Disk, codecs: Codecs, dir: string, entries: seq<string>) returns (r: Result<seq<FlatPost>>)
    ensures r == LoadAllRaw(disk, codecs, dir, entries)
  {
    var posts: seq<FlatPost> := [];
    for i := 0 to |entries|
      invariant LoadAllRaw(disk, codecs, dir, entries[..i]) == Ok(posts)
    {
      var name := entries[i];
      assert entries[..i + 1] == entries[..i] + [name];
      LoadAllRawSnoc(disk, codecs, dir, entries[..i], name);
      var ext := Ext(name);
      if ext == ".md" || ext == ".markdown" {
        var post := RawPost(disk, codecs, JoinPath(dir, name));
        if post.Err? {
          FailurePersists(disk, codecs, dir, entries, i + 1);
          return Err(post.error);
        }
        posts := posts + [post.value];
      }
    }
    assert entries[..|entries|] == entries;
    return Ok(posts);
  }
}
