/**
 * The helpers of internal/testhelpers: substring search, the field-by-field
 * post comparison the tests assert with, and the helpers that write test
 * posts through UpdatePost.
 */
module TestHelpers {
  import opened Results
  import opened Text
  import opened Paths
  import opened Models
  import opened FileSystem
  import Management

  // ---------------------------------------------------------------------------
  // Substring search
  // ---------------------------------------------------------------------------

  /**
   * indexOf: the first index where `sub` occurs in `s`, or -1 when it occurs
   * nowhere. The empty string occurs at 0.
   */
  method IndexOf(s: string, sub: string) returns (r: int)
    ensures r == -1 <==> !Occurs(s, sub)
    ensures r != -1 ==> OccursAt(s, sub, r) && forall j :: 0 <= j < r ==> !OccursAt(s, sub, j)
    ensures sub == [] ==> r == 0
  {
    assert sub == [] ==> OccursAt(s, sub, 0);
    var i := 0;
    while i <= |s| - |sub|
      invariant 0 <= i
      invariant forall j :: 0 <= j < i ==> !OccursAt(s, sub, j)
      decreases |s| - |sub| - i
    {
      if s[i..i + |sub|] == sub {
        assert OccursAt(s, sub, i);
        return i;
      }
      i := i + 1;
    }
    assert forall j :: OccursAt(s, sub, j) ==> j <= |s| - |sub|;
    return -1;
  }

  /** containsString: a length check, then indexOf. */
  method ContainsString(s: string, sub: string) returns (b: bool)
    ensures b <==> Occurs(s, sub)
    ensures |sub| > |s| ==> !b
  {
    if |s| < |sub| {
      return false;
    }
    var i := IndexOf(s, sub);
    b := i >= 0;
  }

  // ---------------------------------------------------------------------------
  // AssertPostEqual
  // ---------------------------------------------------------------------------

  /** A mismatch AssertPostEqual reports. */
  datatype Mismatch = Title | Date | Draft | Slug | TagsLength | Tag(index: nat) | Content

  /** The fields the tests compare: title, date, draft, slug, tags in order, and content. */
  predicate SameForTests(got: Post, want: Post)
  {
    && got.metadata.title == want.metadata.title
    && got.metadata.date == want.metadata.date
    && got.metadata.draft == want.metadata.draft
    && got.metadata.slug == want.metadata.slug
    && got.metadata.tags == want.metadata.tags
    && got.content == want.content
  }

  /**
   * The place of a mismatch in AssertPostEqual's report: title, date, draft,
   * slug, then the tag part (the length, or each differing index in turn),
   * then the content. `tagCount` is the number of tags compared.
   */
  function Rank(m: Mismatch, tagCount: nat): nat
  {
    match m
    case Title => 0
    case Date => 1
    case Draft => 2
    case Slug => 3
    case TagsLength => 4
    case Tag(k) => 5 + k
    case Content => 5 + tagCount
  }

  /**
   * AssertPostEqual: the mismatches, in the order they are reported. The tags
   * are compared element-wise only when their lengths agree.
   */
  method AssertPostEqual(got: Post, want: Post) returns (errors: seq<Mismatch>)
    ensures errors == [] <==> SameForTests(got, want)
    ensures Title in errors <==> got.metadata.title != want.metadata.title
    ensures Date in errors <==> got.metadata.date != want.metadata.date
    ensures Draft in errors <==> got.metadata.draft != want.metadata.draft
    ensures Slug in errors <==> got.metadata.slug != want.metadata.slug
    ensures TagsLength in errors <==> |got.metadata.tags| != |want.metadata.tags|
    ensures forall i: nat :: Tag(i) in errors <==>
      |got.metadata.tags| == |want.metadata.tags| && i < |got.metadata.tags| && got.metadata.tags[i] != want.metadata.tags[i]
    ensures Content in errors <==> got.content != want.content
    ensures forall a, b :: 0 <= a < b < |errors| ==>
      Rank(errors[a], |got.metadata.tags|) < Rank(errors[b], |got.metadata.tags|)
  {
    var header := CompareHeader(got.metadata, want.metadata);
    var tagErrors := CompareTags(got.metadata.tags, want.metadata.tags);
    var trailer: seq<Mismatch> := if got.content != want.content then [Content] else [];
    errors := header + tagErrors + trailer;
    ReportMembers(got, want, header, tagErrors, trailer);
    ReportOrder(header, tagErrors, trailer, |got.metadata.tags|);
  }

  /** The first part of AssertPostEqual: title, date, draft and slug, in that order. */
  method CompareHeader(got: FrontMatter, want: FrontMatter) returns (header: seq<Mismatch>)
    ensures header == [] <==>
      got.title == want.title && got.date == want.date && got.draft == want.draft && got.slug == want.slug
    ensures Title in header <==> got.title != want.title
    ensures Date in header <==> got.date != want.date
    ensures Draft in header <==> got.draft != want.draft
    ensures Slug in header <==> got.slug != want.slug
    ensures forall m :: m in header ==> Rank(m, 0) < 4
    ensures forall a, b :: 0 <= a < b < |header| ==> Rank(header[a], 0) < Rank(header[b], 0)
  {
    header := [];
    if got.title != want.title {
      header := header + [Title];
    }
    if got.date != want.date {
      header := header + [Date];
    }
    if got.draft != want.draft {
      header := header + [Draft];
    }
    if got.slug != want.slug {
      header := header + [Slug];
    }
  }

  /** What the three parts of the report contain is what the whole report contains. */
  lemma ReportMembers(got: Post, want: Post, header: seq<Mismatch>, tagErrors: seq<Mismatch>, trailer: seq<Mismatch>)
    requires header == [] <==>
      && got.metadata.title == want.metadata.title && got.metadata.date == want.metadata.date
      && got.metadata.draft == want.metadata.draft && got.metadata.slug == want.metadata.slug
    requires Title in header <==> got.metadata.title != want.metadata.title
    requires Date in header <==> got.metadata.date != want.metadata.date
    requires Draft in header <==> got.metadata.draft != want.metadata.draft
    requires Slug in header <==> got.metadata.slug != want.metadata.slug
    requires forall m :: m in header ==> Rank(m, 0) < 4
    requires tagErrors == [] <==> got.metadata.tags == want.metadata.tags
    requires TagsLength in tagErrors <==> |got.metadata.tags| != |want.metadata.tags|
    requires forall i: nat :: Tag(i) in tagErrors <==>
      |got.metadata.tags| == |want.metadata.tags| && i < |got.metadata.tags| && got.metadata.tags[i] != want.metadata.tags[i]
    requires forall m :: m in tagErrors ==> m == TagsLength || (m.Tag? && m.index < |got.metadata.tags|)
    requires trailer == if got.content != want.content then [Content] else []
    ensures var errors := header + tagErrors + trailer;
      && (errors == [] <==> SameForTests(got, want))
      && (Title in errors <==> got.metadata.title != want.metadata.title)
      && (Date in errors <==> got.metadata.date != want.metadata.date)
      && (Draft in errors <==> got.metadata.draft != want.metadata.draft)
      && (Slug in errors <==> got.metadata.slug != want.metadata.slug)
      && (TagsLength in errors <==> |got.metadata.tags| != |want.metadata.tags|)
      && (forall i: nat :: Tag(i) in errors <==>
            |got.metadata.tags| == |want.metadata.tags| && i < |got.metadata.tags| && got.metadata.tags[i] != want.metadata.tags[i])
      && (Content in errors <==> got.content != want.content)
  {
    var errors := header + tagErrors + trailer;
    forall i: nat
      ensures Tag(i) in errors <==> Tag(i) in tagErrors
    {
      assert Rank(Tag(i), 0) >= 4;
    }
  }

  /**
   * The three parts of the report, each in order, are in order together: the
   * header ranks below every tag mismatch, and every tag index is below the
   * number of tags compared.
   */
  lemma ReportOrder(header: seq<Mismatch>, tagErrors: seq<Mismatch>, trailer: seq<Mismatch>, n: nat)
    requires forall a, b :: 0 <= a < b < |header| ==> Rank(header[a], 0) < Rank(header[b], 0)
    requires forall m :: m in header ==> Rank(m, 0) < 4
    requires forall a, b :: 0 <= a < b < |tagErrors| ==>
      tagErrors[a].Tag? && tagErrors[b].Tag? && tagErrors[a].index < tagErrors[b].index
    requires forall m :: m in tagErrors ==> m == TagsLength || (m.Tag? && m.index < n)
    requires trailer == [] || trailer == [Content]
    ensures var all := header + tagErrors + trailer;
      forall a, b :: 0 <= a < b < |all| ==> Rank(all[a], n) < Rank(all[b], n)
  {
    var all := header + tagErrors + trailer;
    forall a, b | 0 <= a < b < |all|
      ensures Rank(all[a], n) < Rank(all[b], n)
    {
      if b < |header| {
        assert header[a] in header && header[b] in header;
      } else if a < |header| {
        assert all[a] in header;
        if b < |header| + |tagErrors| {
          assert all[b] == tagErrors[b - |header|];
          assert all[b] in tagErrors;
        } else {
          assert all[b] == Content;
        }
      } else if b < |header| + |tagErrors| {
        assert all[a] == tagErrors[a - |header|] && all[b] == tagErrors[b - |header|];
      } else {
        assert all[b] == Content;
        if a < |header| + |tagErrors| {
          assert all[a] == tagErrors[a - |header|];
          assert all[a] in tagErrors;
        }
      }
    }
  }

  /** The tag part of AssertPostEqual: a length mismatch, or the indices where the tags differ. */
  method CompareTags(gt: seq<string>, wt: seq<string>) returns (errs: seq<Mismatch>)
    ensures errs == [] <==> gt == wt
    ensures TagsLength in errs <==> |gt| != |wt|
    ensures forall i: nat :: Tag(i) in errs <==> |gt| == |wt| && i < |gt| && gt[i] != wt[i]
    ensures forall m :: m in errs ==> m == TagsLength || (m.Tag? && m.index < |gt|)
    ensures forall a, b :: 0 <= a < b < |errs| ==> errs[a].Tag? && errs[b].Tag? && errs[a].index < errs[b].index
  {
    errs := [];
    if |gt| != |wt| {
      return [TagsLength];
    }
    for i := 0 to |gt|
      invariant forall m :: m in errs ==> m.Tag? && m.index < i
      invariant forall k: nat :: k < i ==> (Tag(k) in errs <==> gt[k] != wt[k])
      invariant forall a, b :: 0 <= a < b < |errs| ==> errs[a].index < errs[b].index
    {
      if gt[i] != wt[i] {
        errs := errs + [Tag(i)];
      }
    }
    if errs != [] {
      var m := errs[0];
      assert m in errs && m == Tag(m.index);
    } else {
      assert forall k :: 0 <= k < |gt| ==> gt[k] == wt[k];
    }
  }

  /** The comparison ignores lastmod, publishDate, the file path and the file name. */
  lemma ComparisonIgnores(got: Post, want: Post, path: string, name: string, lastmod: string, publish: string)
    ensures SameForTests(got.(filePath := path, fileName := name,
      metadata := got.metadata.(lastModified := lastmod, publishDate := publish)), want)
      <==> SameForTests(got, want)
  {
  }

  // ---------------------------------------------------------------------------
  // Writing test posts
  // ---------------------------------------------------------------------------

  /** CreateTestPost: the post is written under `contentDir/filename` and that path is returned. */
  method CreateTestPost(disk: Disk, codecs: Codecs, contentDir: string, filename: string, post: Post) returns (r: Result<(Disk, string)>)
    ensures r.Ok? ==> r.value.1 == JoinPath(contentDir, filename) && r.value.1 in r.value.0.files
    ensures r.Ok? ==> r.value.0.files.Keys == disk.files.Keys + {JoinPath(contentDir, filename)}
    ensures r.Ok? <==> codecs.marshal(post.metadata).Ok? && CanWrite(disk, JoinPath(contentDir, filename))
    ensures r.Ok? ==> r.value.0.files[r.value.1] == Management.Frame(codecs.marshal(post.metadata).value, post.content)
    ensures r.Ok? ==> forall q :: q in disk.files && q != r.value.1 ==> r.value.0.files[q] == disk.files[q]
    ensures r.Ok? ==>
      var path := JoinPath(contentDir, filename);
      var listing := disk.dirs[Dir(path)];
      r.value.0.dirs == disk.dirs[Dir(path) := if Base(path) in listing then listing else listing + [Base(path)]]
  {
    var placed := post.(filePath := JoinPath(contentDir, filename));
    var after :- Management.UpdatePost(disk, codecs, placed);
    return Ok((after, placed.filePath));
  }

  /**
   * CreateSamplePosts: each post is written as `slug.md` in `contentDir`, and
   * the paths come back in the order of the posts; the first failing write
   * stops the test.
   */
  method CreateSamplePosts(disk: Disk, codecs: Codecs, contentDir: string, posts: seq<Post>) returns (r: Result<(Disk, seq<string>)>)
    ensures r.Ok? ==> r.value.1 == SamplePaths(contentDir, posts)
    ensures r.Ok? ==> r.value.0.files.Keys == disk.files.Keys + Written(r.value.1)
  {
    var current := disk;
    var paths: seq<string> := [];
    for i := 0 to |posts|
      invariant paths == SamplePaths(contentDir, posts[..i])
      invariant current.files.Keys == disk.files.Keys + Written(paths)
    {
      var created := CreateSamplePost(current, codecs, contentDir, posts[i]);
      if created.Err? {
        return Err(created.error);
      }
      var next, path := created.value.0, created.value.1;
      WrittenGrows(disk.files.Keys, current.files.Keys, next.files.Keys, paths, path);
      assert posts[..i + 1][..i] == posts[..i];
      current := next;
      paths := paths + [path];
    }
    assert posts[..|posts|] == posts;
    return Ok((current, paths));
  }

  /** One step of CreateSamplePosts: the post is written as `slug.md`, adding exactly that path. */
  method CreateSamplePost(disk: Disk, codecs: Codecs, contentDir: string, post: Post) returns (r: Result<(Disk, string)>)
    ensures r.Ok? ==> r.value.1 == JoinPath(contentDir, SampleFileName(post))
    ensures r.Ok? ==> r.value.0.files.Keys == disk.files.Keys + {r.value.1}
  {
    r := CreateTestPost(disk, codecs, contentDir, SampleFileName(post), post);
  }

  /** The file name a sample post is written under: its slug with ".md" appended. */
  function SampleFileName(post: Post): string
  {
    post.metadata.slug + ".md"
  }

  /** The paths CreateSamplePosts returns for `posts`: each post's `slug.md` under `contentDir`, in order. */
  function SamplePaths(contentDir: string, posts: seq<Post>): (r: seq<string>)
    ensures |r| == |posts|
  {
    if posts == [] then []
    else SamplePaths(contentDir, posts[..|posts| - 1]) + [JoinPath(contentDir, SampleFileName(posts[|posts| - 1]))]
  }

  /** The i-th sample path is the i-th post's slug with ".md", joined to the content directory. */
  lemma {:induction false} SamplePathsAt(contentDir: string, posts: seq<Post>, i: nat)
    requires i < |posts|
    ensures SamplePaths(contentDir, posts)[i] == JoinPath(contentDir, posts[i].metadata.slug + ".md")
  {
    if i < |posts| - 1 {
      SamplePathsAt(contentDir, posts[..|posts| - 1], i);
    }
  }

  /** The paths written so far, as a set. */
  function Written(paths: seq<string>): set<string>
  {
    set p | p in paths
  }

  /** Writing one more path adds it to the keys, and to the written set. */
  lemma WrittenGrows(before: set<string>, keys: set<string>, keys': set<string>, paths: seq<string>, path: string)
    requires keys == before + Written(paths)
    requires keys' == keys + {path}
    ensures keys' == before + Written(paths + [path])
  {
    assert Written(paths + [path]) == Written(paths) + {path};
  }
}
