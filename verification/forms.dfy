/**
 * The rules the HTTP handlers apply between a submitted form and the post
 * repository: tag parsing, the post a new-post form builds, the merge an
 * edit form makes with the stored post, and which post the editor page
 * shows. Routing, status codes and templates are not modelled; a handler's
 * answer is a `Response`.
 */
module Handlers {
  import opened Results
  import opened Text
  import opened Paths
  import opened Models
  import opened FileSystem
  import opened Creation
  import Management
  import Slugs

  /** The form values a handler reads; a missing value reads as "". */
  datatype Form = Form(
    title: string,
    content: string,
    slug: string,
    tags: string,
    draft: string,
    date: string,
    lastmod: string)

  /** How a handler ends: with its result, or with one of the early exits. */
  datatype Response<+T> =
    | Done(value: T)
    | SetupRedirect          // no site configured: redirect to /setup
    | PathRequired           // 400: the `path` query value is empty
    | ServerError(error: Error)

  function Respond<T>(r: Result<T>): Response<T>
  {
    if r.Ok? then Done(r.value) else ServerError(r.error)
  }

  // ---------------------------------------------------------------------------
  // Tags
  // ---------------------------------------------------------------------------

  function Trimmed(pieces: seq<string>): (r: seq<string>)
    ensures |r| == |pieces|
  {
    seq(|pieces|, i requires 0 <= i < |pieces| => TrimSpace(pieces[i]))
  }

  /**
   * The tag list of a form: none for an empty field, otherwise one tag per
   * comma-separated piece, white space trimmed, empty pieces kept.
   */
  function TagList(field: string): (r: seq<string>)
    ensures field == [] ==> r == []
    ensures field != [] ==> |r| == multiset(field)[','] + 1
  {
    if field == [] then []
    else
      SplitCount(field, ',');
      Trimmed(Split(field, ','))
  }

  /** Every parsed tag is free of commas and of white space at either end. */
  lemma TagListTrimmed(field: string)
    ensures forall i :: 0 <= i < |TagList(field)| ==> ',' !in TagList(field)[i] && TrimSpace(TagList(field)[i]) == TagList(field)[i]
  {
    if field != [] {
      var pieces := Split(field, ',');
      SplitPiecesFree(field, ',');
      forall i | 0 <= i < |pieces|
        ensures ',' !in Trimmed(pieces)[i] && TrimSpace(Trimmed(pieces)[i]) == Trimmed(pieces)[i]
      {
        TrimSpaceInfix(pieces[i]);
        TrimSpaceIdempotent(pieces[i]);
      }
    }
  }

  /** The tag-parsing loop every handler runs. */
  method ParseTags(field: string) returns (tags: seq<string>)
    ensures tags == TagList(field)
  {
    tags := [];
    if field != [] {
      var pieces := Split(field, ',');
      for i := 0 to |pieces|
        invariant |tags| == i
        invariant forall j :: 0 <= j < i ==> tags[j] == TrimSpace(pieces[j])
      {
        tags := tags + [TrimSpace(pieces[i])];
      }
      assert tags == Trimmed(pieces);
    }
  }

  /** Tags that a comma-joined field carries back unchanged. */
  predicate Representable(tags: seq<string>)
  {
    && (forall i :: 0 <= i < |tags| ==> ',' !in tags[i] && TrimSpace(tags[i]) == tags[i])
    && tags != [[]]
  }

  /** Joining trimmed, comma-free tags with "," and parsing the field gives the tags back. */
  lemma TagsRoundTrip(tags: seq<string>)
    requires Representable(tags)
    ensures TagList(Join(",", tags)) == tags
  {
    if tags != [] {
      SplitJoin(tags, ',');
      JoinShape(",", tags);
    }
  }

  // ---------------------------------------------------------------------------
  // New posts
  // ---------------------------------------------------------------------------

  /** The content directory of a site. */
  function ContentDir(sitePath: string): string
  {
    JoinPath(sitePath, "content")
  }

  /**
   * The post a new-post form builds. The date and the publish date come from
   * two separate readings of the clock, `dateNow` and `publishNow`, which
   * differ when the readings fall on either side of a second boundary.
   */
  function NewPost(form: Form, dateNow: string, publishNow: string): Post
  {
    Post("", "", FrontMatter(form.title, dateNow, form.draft == "on", "", publishNow, form.slug, TagList(form.tags)), form.content)
  }

  /**
   * PostNew (and PostEditor, CreatePostHandler): with a site configured, the
   * form's post is created in the site's content directory.
   */
  method PostNew(sitePath: string, disk: Disk, codecs: Codecs, form: Form, dateNow: string, publishNow: string) returns (r: Response<Disk>)
    ensures sitePath == [] ==> r == SetupRedirect
    ensures sitePath != [] ==> r == Respond(CreatePost(disk, codecs, ContentDir(sitePath), NewPost(form, dateNow, publishNow)))
  {
    if sitePath == [] {
      return SetupRedirect;
    }
    var tagList := ParseTags(form.tags);
    var post := Post("", "", FrontMatter(form.title, dateNow, form.draft == "on", "", publishNow, form.slug, tagList), form.content);
    r := Respond(CreatePost(disk, codecs, ContentDir(sitePath), post));
  }

  /**
   * What a created post reads back as: the form's title and parsed tags,
   * the form's slug or else the title's, draft exactly when the box said
   * "on", and the two clock readings as date and publish date.
   */
  lemma NewPostReadsBack(sitePath: string, disk: Disk, codecs: Codecs, form: Form, dateNow: string, publishNow: string)
    requires Management.Coherent(codecs)
    requires Separator !in form.slug
    requires CreatePost(disk, codecs, ContentDir(sitePath), NewPost(form, dateNow, publishNow)).Ok?
    ensures var after := CreatePost(disk, codecs, ContentDir(sitePath), NewPost(form, dateNow, publishNow)).value;
      var got := Management.GetPost(after, codecs, JoinPath(ContentDir(sitePath), FileName(NewPost(form, dateNow, publishNow).metadata)));
      && (got.Ok? <==> codecs.render(form.content).Ok?)
      && (got.Ok? ==>
        && got.value.metadata.title == form.title
        && got.value.metadata.slug == (if form.slug != [] then form.slug else Slugs.Slug(form.title))
        && got.value.metadata.tags == TagList(form.tags)
        && (got.value.metadata.draft <==> form.draft == "on")
        && got.value.metadata.date == dateNow && got.value.metadata.publishDate == publishNow)
  {
    CreateThenGet(disk, codecs, ContentDir(sitePath), NewPost(form, dateNow, publishNow));
  }

  // ---------------------------------------------------------------------------
  // Editing
  // ---------------------------------------------------------------------------

  /**
   * The post an edit form makes of the stored one: date falls back to the
   * stored date, lastmod to `now`; publish date and file name stay; the rest
   * comes from the form.
   */
  function EditedPost(existing: Post, path: string, form: Form, now: string): Post
  {
    var date := if form.date == [] then existing.metadata.date else form.date;
    var lastmod := if form.lastmod == [] then now else form.lastmod;
    Post(existing.fileName, path,
      FrontMatter(form.title, date, form.draft == "on", lastmod, existing.metadata.publishDate, form.slug, TagList(form.tags)),
      form.content)
  }

  /**
   * PostEdit: an empty path is refused and a post that does not load is not
   * written; otherwise the merged post replaces the file at `path`, and no
   * other file is created, renamed or changed, whatever the new slug.
   */
  method PostEdit(disk: Disk, codecs: Codecs, path: string, form: Form, now: string) returns (r: Response<Disk>)
    ensures path == [] ==> r == PathRequired
    ensures path != [] && Management.GetPost(disk, codecs, path).Err? ==>
      r == ServerError(Management.GetPost(disk, codecs, path).error)
    ensures path != [] && Management.GetPost(disk, codecs, path).Ok? ==>
      r == Respond(Management.UpdatePost(disk, codecs, EditedPost(Management.GetPost(disk, codecs, path).value, path, form, now)))
    ensures r.Done? ==> path in disk.files && r.value.files.Keys == disk.files.Keys
    ensures r.Done? ==> forall q :: q in disk.files && q != path ==> r.value.files[q] == disk.files[q]
  {
    if path == [] {
      return PathRequired;
    }
    var loaded := Management.GetPost(disk, codecs, path);
    if loaded.Err? {
      return ServerError(loaded.error);
    }
    var existing := loaded.value;
    var tagList := ParseTags(form.tags);
    var lastmod := form.lastmod;
    if lastmod == [] {
      lastmod := now;
    }
    var date := form.date;
    if date == [] {
      date := existing.metadata.date;
    }
    var updated := Post(existing.fileName, path,
      FrontMatter(form.title, date, form.draft == "on", lastmod, existing.metadata.publishDate, form.slug, tagList),
      form.content);
    r := Respond(Management.UpdatePost(disk, codecs, updated));
  }

  /**
   * After an edit the post reads back under the same path and file name,
   * with the merged metadata and, in particular, its original publish date.
   */
  lemma EditThenGet(disk: Disk, codecs: Codecs, path: string, form: Form, now: string)
    requires Management.Coherent(codecs)
    requires Management.GetPost(disk, codecs, path).Ok?
    requires Management.UpdatePost(disk, codecs, EditedPost(Management.GetPost(disk, codecs, path).value, path, form, now)).Ok?
    ensures var existing := Management.GetPost(disk, codecs, path).value;
      var edited := EditedPost(existing, path, form, now);
      var got := Management.GetPost(Management.UpdatePost(disk, codecs, edited).value, codecs, path);
      && (got.Ok? <==> codecs.render(form.content).Ok?)
      && (got.Ok? ==>
        && got.value.fileName == existing.fileName
        && got.value.metadata == edited.metadata
        && got.value.metadata.publishDate == existing.metadata.publishDate)
  {
    var existing := Management.GetPost(disk, codecs, path).value;
    Management.UpdateThenGet(disk, codecs, EditedPost(existing, path, form, now));
  }

  /** The form the editor page fills in for a post. */
  function FormOf(p: Post): Form
  {
    Form(p.metadata.title, p.content, p.metadata.slug, Join(",", p.metadata.tags),
      if p.metadata.draft then "on" else "", p.metadata.date, p.metadata.lastModified)
  }

  /**
   * Submitting the editor without changes keeps the metadata, provided the
   * tags survive the comma-joined field and a last-modified time is set.
   */
  lemma ResubmitKeepsMetadata(existing: Post, path: string, now: string)
    requires Representable(existing.metadata.tags)
    requires existing.metadata.lastModified != []
    ensures EditedPost(existing, path, FormOf(existing), now).metadata == existing.metadata
    ensures EditedPost(existing, path, FormOf(existing), now).fileName == existing.fileName
  {
    TagsRoundTrip(existing.metadata.tags);
  }

  // ---------------------------------------------------------------------------
  // The editor page
  // ---------------------------------------------------------------------------

  /** What the editor page shows: a post, and whether it is being edited. */
  datatype Editor = Editor(post: Post, isEdit: bool)

  /**
   * GetEditor of internal/application: only the /post/edit route loads a
   * post, and it needs a path; every other route shows an empty editor.
   */
  function EditorForRoute(sitePath: string, disk: Disk, codecs: Codecs, route: string, path: string): (r: Response<Editor>)
    ensures sitePath == [] ==> r == SetupRedirect
    ensures sitePath != [] && route == "/post/edit" && path == [] ==> r == PathRequired
    ensures r.Done? ==> (r.value.isEdit <==> route == "/post/edit")
    ensures r.Done? && r.value.isEdit ==> Management.GetPost(disk, codecs, path) == Ok(r.value.post)
    ensures r.Done? && !r.value.isEdit ==> r.value.post == ZeroPost
    ensures sitePath != [] && route != "/post/edit" ==> r.Done?
  {
    if sitePath == [] then SetupRedirect
    else if route == "/post/edit" then
      if path == [] then PathRequired
      else
        var loaded := Management.GetPost(disk, codecs, path);
        if loaded.Ok? then Done(Editor(loaded.value, true)) else ServerError(loaded.error)
    else Done(Editor(ZeroPost, false))
  }

  /**
   * GetEditor of src/application: a non-empty path is loaded and marks an
   * edit; a load failure ends the request.
   */
  function EditorForQuery(sitePath: string, disk: Disk, codecs: Codecs, path: string): (r: Response<Editor>)
    ensures r.Done? <==> sitePath != [] && (path == [] || Management.GetPost(disk, codecs, path).Ok?)
    ensures r.Done? ==> (r.value.isEdit <==> path != [])
    ensures r.Done? && r.value.isEdit ==> Management.GetPost(disk, codecs, path) == Ok(r.value.post)
    ensures r.Done? && !r.value.isEdit ==> r.value.post == ZeroPost
    ensures sitePath != [] && !r.Done? ==> r == ServerError(Management.GetPost(disk, codecs, path).error)
  {
    if sitePath == [] then SetupRedirect
    else if path != [] then
      var loaded := Management.GetPost(disk, codecs, path);
      if loaded.Ok? then Done(Editor(loaded.value, true)) else ServerError(loaded.error)
    else Done(Editor(ZeroPost, false))
  }
}
