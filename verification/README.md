# lovecms content repository in Dafny

lovecms keeps blog posts as files: a front-matter block between two `---`
lines, then the markdown body. This project models the repository that maps
those files to posts. That covers reading one post, the three directory
listings (lenient, fail-fast, and a name-only map), writing a post back,
naming a new post's file after its slug, the tag index of the CMS, and the
handler rules that turn a submitted form into a post. It also models the
string helpers the tests use.

The filesystem is a value, `FileSystem.Disk`. It holds the file contents by
path and each directory's entry names. The YAML encoder, the front-matter
parser and the markdown renderer are functions passed in (`FileSystem.Codecs`),
and each returns a result that may be an error. The current time is a
parameter (`now`).

| file | module | models |
|---|---|---|
| results.dfy | `Results` | Go's `error` returns as a `Result`; the zero value a caller keeps on failure |
| text.dfy | `Text` | byte-wise string order, `strings.Split`/`Join`/`TrimSpace`, substring occurrence |
| paths.dfy | `Paths` | `filepath.Ext`/`Base`/`Dir`/`Join`, the `.md`/`.markdown` test |
| models.dfy | `Models` | `types.Post`/`FrontMatter` and the flat `posts.Post` |
| filesystem.dfy | `FileSystem` | `os.ReadDir`, `os.Open`, `os.WriteFile`, the foreign libraries |
| sorting.dfy | `Sorting` | `sort.Slice` by descending date, in place on an array |
| listing.dfy | `Listing` | the shared loop of the two lenient listings |
| management.dfy | `Management` | internal/application/management.go |
| posts.dfy | `Posts` | internal/posts/getpost.go and internal/posts/getposts.go |
| loadposts.dfy | `LoadPosts` | internal/application/loadposts.go |
| slugs.dfy | `Slugs`, `SlugVectors` | the slug rule and the slug test vectors |
| create.dfy | `Creation` | CreatePost's file naming and write |
| tagindex.dfy | `TagIndex` | the `Cms` tag index and `join` of internal/cms/cms.go |
| forms.dfy | `Handlers` | tag parsing, new-post and edit-post building, editor selection |
| testhelpers.dfy | `TestHelpers` | internal/testhelpers/helpers.go |
| maintest.dfy | `MainTest` | `contains`/`containsSubstring` of cmd/main_test.go |

Some lemmas about reading a post back after a write assume that the
front-matter parser reads back what the YAML encoder wrote. That assumption
is the predicate `Management.Coherent`. `Management.FrameRoundTrip` shows that
the framing alone is not what breaks it: a delimiter-aware reader,
`Management.SplitFrontMatter`, recovers the metadata text and the body.

CreatePost is called by the handlers, but its own body is not part of this
model. The tests in internal/application/management_test.go fix how the
file is named:
- a non-empty slug names the file `slug.md`;
- otherwise the slug of the title does.

The model also assumes that CreatePost writes that stem back as the post's
slug. No test checks this either way.

The slug rule handles each character on its own. It lower-cases the title,
turns each space into `-` and drops everything outside `[a-z0-9-]`. It never
collapses hyphens. This reproduces every test vector of
internal/application/management_test.go:315-320, including the
`title-with-special--characters` double hyphen.

The sources disagree on one record shape.
internal/application/models.go declares `application.Post` as a flat record.
internal/application/management.go and internal/handlers/cms.go use
`Post.Metadata` and `Post.FileName`. The model follows the code that uses the
type, so application posts have the shape of internal/types/models.go.

## Model

| member | source | states |
|---|---|---|
| Text.LessEq | internal/application/management.go:75-77 | Go's byte-wise string comparison, the order `>` sorts dates by |
| Text.Split | internal/cms/cms.go:192 | `strings.Split` on a one-character separator: the pieces between separators, never an empty list |
| Text.Join | internal/cms/cms.go:223-225 | `strings.Join`: the separator between neighbouring parts only |
| Text.TrimSpace | internal/cms/cms.go:193 | `strings.TrimSpace`: white space removed at both ends |
| Text.IsSpace | internal/cms/cms.go:193 | `unicode.IsSpace`: the Latin-1 white space characters and the Unicode `White_Space` ones that `strings.TrimSpace` removes |
| Text.LessEqTotal | internal/application/management.go:75-77 | any two dates are comparable under Go's byte-wise `>` |
| Text.LessEqTransitive | internal/application/management.go:75-77 | the date order is transitive, so a descending order is well defined |
| Text.LessEqAntisymmetric | internal/application/management.go:75-77 | two dates that are each no greater than the other are equal |
| Text.EmptyIsLeast | internal/application/management.go:68-70 | only the empty date sorts at or below the empty date |
| Text.JoinShape | internal/cms/cms.go:223-225 | the joined text starts with the first element, ends with the last, and holds one separator per neighbouring pair |
| Text.SplitCount | internal/cms/cms.go:192 | `strings.Split` yields one piece more than there are separators |
| Text.SplitPiecesFree | internal/cms/cms.go:192 | no piece contains the separator |
| Text.JoinSplit | internal/cms/cms.go:192 | joining the pieces with the separator gives the input back |
| Text.SplitJoin | internal/cms/cms.go:223-225 | splitting a join of separator-free parts gives the parts back |
| Text.TrimLeftSpec | internal/cms/cms.go:193 | the longest all-space prefix is dropped |
| Text.TrimRightSpec | internal/cms/cms.go:193 | the longest all-space suffix is dropped |
| Text.TrimSpaceInfix | internal/cms/cms.go:193 | `TrimSpace` keeps an infix of the input with only white space around it and none at its ends |
| Text.TrimSpaceIdempotent | internal/cms/cms.go:193 | trimming twice is trimming once |
| Paths.Ext | internal/application/management.go:65 | the extension is the suffix from the last `.` of the final path element, or empty |
| Paths.ExtEmptyIffNoDot | internal/application/management.go:65 | a path has no extension exactly when its final element has no `.` |
| Paths.IsPostFile | internal/application/management.go:65-67 | an entry is a post file iff its extension is exactly `.md` or `.markdown`; the same test at internal/posts/getposts.go:35-37 and internal/posts/getpost.go:64-66, and with `path.Ext` at internal/application/loadposts.go:24-26 |
| Paths.Base | internal/application/management.go:42 | `filepath.Base`: the last element, `.` for the empty path |
| Paths.Dir | internal/application/management.go:96-99 | `filepath.Dir`: the directory whose listing a write updates |
| Paths.JoinPath | internal/application/management.go:68 | `filepath.Join` of a directory and an entry name |
| Paths.JoinPathParts | internal/application/management.go:42 | `Base` and `Dir` of a directory joined with a plain name give the name and the directory back |
| Paths.MdSuffixIsPostFile | internal/application/management.go:67 | every name ending in `.md` passes the post-file test |
| Paths.UpperCaseIsNotPostFile | internal/application/management.go:67 | the test is case-sensitive: `POST.MD` is skipped |
| Paths.BackupIsNotPostFile | internal/application/management.go:65-67 | only the last `.` counts: `post.md.bak` is skipped |
| FileSystem.ReadDir | internal/application/management.go:56 | `os.ReadDir`: the directory's entry names, or an error when it does not exist |
| FileSystem.Open | internal/application/management.go:17 | `os.Open` and reading the file whole: its contents, or an error when it does not exist |
| FileSystem.CanWrite | internal/application/management.go:96 | `os.WriteFile` can write a path iff it is not empty, its parent directory exists and it is not itself a directory |
| FileSystem.WriteFile | internal/application/management.go:96-99 | the write succeeds iff the parent directory exists; it replaces exactly that file, appends its name to the parent's listing unless already there, and leaves every other directory's listing alone; an empty path cannot be written |
| Sorting.SortDescending | internal/application/management.go:75-77 | the array ends up sorted by descending key and is a permutation of its input |
| Sorting.SortedDescending | internal/application/management.go:74-77 | the collected posts come back sorted by descending date, with the same posts and the same count |
| Sorting.EmptyKeysLast | internal/application/management.go:75-77 | in a descending order, everything after an empty key also has an empty key |
| Listing.Markdown | internal/application/management.go:64-67 | the entry names whose extension is `.md` or `.markdown`, in listing order |
| Listing.MarkdownKeepsPostFiles | internal/application/management.go:64-71 | the filter keeps exactly the `.md`/`.markdown` entries and never adds any |
| Listing.MarkdownAppend | internal/application/management.go:64-71 | filtering distributes over concatenation |
| Listing.LoadEach | internal/application/management.go:67-70 | one loaded post per name, each loaded from the name joined to the directory, in order |
| Listing.LoadPostFiles | internal/application/management.go:61-72 | the loop yields one loaded post per `.md`/`.markdown` entry, in listing order, and none for other entries |
| Listing.ListLenient | internal/application/management.go:50-79 | an empty or missing directory is an error; otherwise the result has one post per post entry, is a permutation of the loaded posts, and is sorted by descending date |
| Management.GetPost | internal/application/management.go:15-48 | a missing file, a parse failure or a render failure is returned as the error; success iff open, parse and render all succeed; the post then carries the base name, the path, the parsed metadata and the rendered body |
| Management.GetPosts | internal/application/management.go:50-79 | empty path and missing directory are errors; otherwise one post per post entry, even for an entry that fails to load, newest date first |
| Management.ZeroPostsLast | internal/application/management.go:68-77 | a zero post standing in for a failed load is followed only by posts with no date |
| Management.UpdatePost | internal/application/management.go:81-102 | a marshal error writes nothing and is returned; otherwise the write succeeds iff the parent directory exists (so a post for a missing directory is not written, as management_test.go:175-184 expects), and the file then holds exactly the framed text; the parent's listing gains the name unless it had it, and no other file or listing changes |
| Management.Frame | internal/application/management.go:89-93 | the text UpdatePost writes: `---`, the marshalled metadata, `---`, the body |
| Management.FrameHolds | internal/application/management_test.go:203-212 | the written file holds the metadata right after the opening delimiter and ends with the content verbatim |
| Management.LastWriteWins | internal/application/management.go:96 | writing twice to one path leaves the disk as writing only the second post would |
| Management.FindClosing | internal/application/management.go:89-93 | finds the first delimiter line at or after a position, or reports there is none |
| Management.FrameRoundTrip | internal/application/management.go:89-93 | the framed text splits back into the metadata text and the body when the metadata ends in a newline and has no delimiter line |
| Management.UpdateThenGet | internal/application/management.go:81-102 | with a coherent parser, reading a written post back gives its metadata, path, base name and rendered body |
| Posts.Flatten | internal/posts/getpost.go:38-44 | the flat post keeps the front matter's title, date and tags, the path and the body |
| Posts.GetPost | internal/posts/getpost.go:13-47 | open, parse and render failures are returned as errors; a loaded post carries the requested path |
| Posts.GetPostIsFlattened | internal/posts/getpost.go:38-44 | the flat GetPost fails exactly when the metadata-carrying one does, and otherwise keeps its title, date, tags, path and rendered body |
| Posts.GetPosts | internal/posts/getpost.go:49-78 | empty path and missing directory are errors; otherwise one flat post per post entry, zero posts for failed loads, newest date first |
| Posts.RawPost | internal/posts/getposts.go:38-62 | a loaded entry keeps title, date and tags from the front matter, the joined path, and the raw unrendered body |
| Posts.LoadAllRaw | internal/posts/getposts.go:34-64 | the fail-fast loop before sorting: the raw posts of the post entries, or the first failing entry's error |
| Posts.LoadAllRawSpec | internal/posts/getposts.go:34-66 | the loop succeeds iff every post entry loads, and then holds their posts in listing order; otherwise its error is that of the first failing entry |
| Posts.LoadAll | internal/posts/getposts.go:34-64 | the loop returns the first failing entry's error, or every post entry's raw post in listing order |
| Posts.FailurePersists | internal/posts/getposts.go:40-51 | once one entry has failed, the rest of the listing cannot change the outcome |
| Posts.GetPostsFailFast | internal/posts/getposts.go:21-73 | empty path and missing directory are errors; the first failing entry aborts with its error; otherwise all post entries, permuted into descending date order |
| LoadPosts.LoadPosts | internal/application/loadposts.go:10-38 | empty path and missing directory are errors; otherwise the keys are exactly the post entries and each value carries its name as title, the joined path and no tags |
| LoadPosts.KeysAreListed | internal/application/loadposts.go:23-34 | the map's keys are the names the listings load, and there are no more keys than loaded posts |
| Slugs.Slug | internal/application/management_test.go:315-320 | the slug rule: lower-case `A`–`Z`, a space becomes `-`, keep `[a-z0-9-]`, drop the rest |
| Slugs.SlugAlphabet | internal/application/management_test.go:315-320 | a slug holds only `[a-z0-9-]`, is no longer than its title and has no path separator |
| Slugs.SlugAppend | internal/application/management_test.go:319 | the slug of a concatenation is the concatenation of the slugs |
| Slugs.SlugIdempotent | internal/application/management_test.go:315-318 | a slug is its own slug |
| Slugs.HyphenCount | internal/application/management_test.go:318-319 | hyphens are never collapsed: one per space and per hyphen of the title |
| Slugs.SlugOfJoin | internal/application/management_test.go:315-317 | words joined by spaces give their slugs joined by single hyphens |
| Slugs.Dropped | internal/application/management_test.go:258-268 | punctuation contributes nothing to a slug |
| SlugVectors.SlugSimpleTitle | internal/application/management_test.go:315 | "Simple Title" gives "simple-title" |
| SlugVectors.SlugTitleWithNumbers | internal/application/management_test.go:316 | digits are kept |
| SlugVectors.SlugUppercaseTitle | internal/application/management_test.go:317 | capitals are lower-cased |
| SlugVectors.SlugTitleWithHyphens | internal/application/management_test.go:318 | hyphens are kept |
| SlugVectors.SlugTitleWithSpecialCharacters | internal/application/management_test.go:319 | dropped characters between spaces leave a double hyphen |
| SlugVectors.SlugEmptyTitle | internal/application/management_test.go:320 | the empty title has the empty slug |
| Creation.Placed | internal/application/management_test.go:232-257 | the post as CreatePost writes it: at `dir/FileName`, with its stem as the slug |
| Creation.FileName | internal/application/management_test.go:232-257 | a new post's file name always passes the listing's extension test and has no separator unless the custom slug has one |
| Creation.CreatePost | internal/application/management_test.go:282-301 | a successful create makes the file `dir/FileName` exist and leaves every other file as it was |
| Creation.PlacedIsStable | internal/application/management_test.go:245-257 | the written-back slug names the same file, so creating the stored post again targets the same path |
| Creation.CreateIntoMissingDirectory | internal/application/management_test.go:269-279 | creating into a directory that does not exist fails |
| Creation.CreateIntoExistingDirectory | internal/application/management_test.go:282-296 | creating into an existing directory succeeds when the metadata encodes and no directory has the new file's path |
| Creation.CreatedIsListed | internal/application/management_test.go:290-296 | after a create the directory lists the new file, the listing filter keeps it, and no other listing changes |
| Creation.CreateThenGet | internal/application/management_test.go:245-257 | with a coherent parser, the created file reads back with the post's metadata, the slug filled in from the title when it was empty |
| Creation.CreateOverwrites | internal/application/management_test.go:284 | a second create with the same file name overwrites the first |
| Creation.CustomSlugNamesFile | internal/application/management_test.go:232-244 | a custom slug names the file whatever the title |
| Creation.AutoGeneratedFileName | internal/application/management_test.go:245-257 | "Auto Generated Slug Post" is stored as `auto-generated-slug-post.md` |
| Creation.SpecialCharactersFileName | internal/application/management_test.go:258-268 | trailing punctuation vanishes: `post-with-special-characters.md` |
| Creation.EmptyTitleFileName | internal/application/management_test.go:332-335 | an empty title and slug give the name `.md`, which the listings still load |
| TagIndex.AddPost | internal/cms/cms.go:51-61 | the index after filing a post under each of its tags in turn |
| TagIndex.AddPostKeys | internal/cms/cms.go:51-61 | filing a post adds exactly its tags to the index's keys |
| TagIndex.AddPostSpec | internal/cms/cms.go:51-61 | each tag's list gains the post at its end once per occurrence of the tag; other tags keep their lists |
| TagIndex.IndexAll | internal/cms/cms.go:84-87 | the index after filing each listed post in turn, as the home handler's loop does |
| TagIndex.RepeatedTag | internal/cms/cms.go:52-60 | a tag repeated within one post files that post twice |
| TagIndex.IndexAllSpec | internal/cms/cms.go:85-87 | indexing a list of posts appends, to each tag's list, the posts carrying it in list order |
| TagIndex.ReindexDuplicates | internal/cms/cms.go:85-87 | indexing the same posts again files each of them a second time |
| TagIndex.Cms.constructor | internal/cms/cms.go:33-40 | a new CMS has an empty tag index |
| TagIndex.Cms.UpdateTags | internal/cms/cms.go:51-61 | the index becomes the old index with the post filed under each of its tags |
| TagIndex.Cms.IndexPosts | internal/cms/cms.go:85-87 | the index becomes the old index with every listed post filed in order |
| TagIndex.Cms.GetTags | internal/cms/cms.go:42-49 | every key of the index exactly once, in no particular order |
| TagIndex.JoinTags | internal/cms/cms.go:223-225 | the separator goes between neighbours only: the length is the elements' plus one separator fewer than elements |
| Handlers.TagList | internal/cms/cms.go:189-195 | an empty field gives no tags; otherwise there is one tag per comma plus one |
| Handlers.TagListTrimmed | internal/cms/cms.go:192-194 | every parsed tag is free of commas and of surrounding white space |
| Handlers.ParseTags | internal/handlers/cms.go:109-115 | the tag loop computes the tag list; the identical loops at internal/handlers/cms.go:197-203, internal/application/cms.go:172-178 and src/application/cms.go:157-163 compute the same list |
| Handlers.TagsRoundTrip | internal/cms/cms.go:189-195 | trimmed, comma-free tags joined with "," parse back to themselves |
| Handlers.ContentDir | internal/handlers/cms.go:131 | a site's posts live in its `content` directory; internal/cms/cms.go:75 and internal/cms/cms.go:211 join the same path |
| Handlers.NewPost | internal/handlers/cms.go:117-127 | the post a new-post form builds, with date and publish date from two clock readings |
| Handlers.EditedPost | internal/handlers/cms.go:205-228 | the edit form merged into the stored post: date falls back to the stored one, lastmod to the clock, publish date and file name kept |
| Handlers.PostNew | internal/handlers/cms.go:85-141 | without a site nothing is created; otherwise the form's post is created in the site's content directory; internal/application/cms.go:148-204, src/application/cms.go:133-189 and internal/cms/cms.go:165-221 take the same steps |
| Handlers.NewPostReadsBack | internal/handlers/cms.go:118-132 | a created post reads back with the form's title and tags, draft iff the box said "on", the first clock reading as date and the second as publish date, and the form's slug or else the title's |
| Handlers.PostEdit | internal/handlers/cms.go:166-241 | an empty path is refused and a post that does not load is not written; otherwise the merged post replaces that one file and no other file is created or changed |
| Handlers.EditThenGet | internal/handlers/cms.go:210-232 | after an edit the post reads back under the same path and file name, with the merged metadata and its original publish date |
| Handlers.ResubmitKeepsMetadata | internal/handlers/cms.go:205-228 | submitting the editor unchanged keeps the metadata and the file name |
| Handlers.EditorForRoute | internal/application/cms.go:84-117 | only `/post/edit` loads a post and marks an edit, and it needs a path; other routes show the zero post |
| Handlers.EditorForQuery | src/application/cms.go:80-107 | an edit is shown iff a non-empty path was given and loaded; a load failure ends the request; internal/cms/cms.go:110-138 applies the same rule |
| TestHelpers.IndexOf | internal/testhelpers/helpers.go:177-185 | -1 iff there is no occurrence; otherwise the smallest index where the substring occurs; 0 for the empty substring. The index counts characters, where Go counts bytes; the two differ once non-ASCII text precedes the match |
| TestHelpers.ContainsString | internal/testhelpers/helpers.go:172-175 | true iff the substring occurs; false when it is longer than the string |
| TestHelpers.AssertPostEqual | internal/testhelpers/helpers.go:103-136 | no mismatch iff title, date, draft, slug, tags and content agree; each of title, date, draft, slug and content is reported iff it differs; a tag-length mismatch iff the lengths differ, else tag `i` iff the tags differ there; the reports come in the order title, date, draft, slug, tag part, content |
| TestHelpers.Rank | internal/testhelpers/helpers.go:107-135 | the position of each kind of mismatch in the report, tag mismatches by index |
| TestHelpers.CompareHeader | internal/testhelpers/helpers.go:107-121 | title, date, draft and slug are each reported iff they differ, in that order |
| TestHelpers.ReportMembers | internal/testhelpers/helpers.go:103-136 | the report holds a mismatch iff its header, tag part or content part does, so each field is reported iff it differs |
| TestHelpers.ReportOrder | internal/testhelpers/helpers.go:103-136 | header, tag part and content part, each in order, form a report in order |
| TestHelpers.CompareTags | internal/testhelpers/helpers.go:123-131 | a length mismatch alone when the lengths differ; otherwise exactly the indices where the tags differ, each below the length, in increasing order |
| TestHelpers.ComparisonIgnores | internal/testhelpers/helpers.go:104-136 | lastmod, publishDate, the file path and the file name do not affect the comparison |
| TestHelpers.CreateTestPost | internal/testhelpers/helpers.go:36-50 | the write succeeds iff the metadata encodes and the content directory exists; the post is then at `contentDir/filename`, the only new file, and that path is returned; every other file keeps its contents and only the content directory's listing changes, gaining the name unless it had it |
| TestHelpers.CreateSamplePosts | internal/testhelpers/helpers.go:53-101 | each post is written as `slug.md`, the paths come back in the posts' order, and the files are exactly the old ones plus those paths. The three fixed posts of internal/testhelpers/helpers.go:56-90 are a parameter here, so the contract holds for any list of posts |
| TestHelpers.CreateSamplePost | internal/testhelpers/helpers.go:93-96 | one iteration: the post is written as `slug.md` under the content directory, adding exactly that path |
| TestHelpers.SampleFileName | internal/testhelpers/helpers.go:94 | a sample post's file name is its slug followed by `.md` |
| TestHelpers.SamplePaths | internal/testhelpers/helpers.go:92-101 | the returned paths, one per post |
| TestHelpers.SamplePathsAt | internal/testhelpers/helpers.go:93-96 | the i-th returned path is the i-th post's slug with `.md`, joined to the content directory |
| MainTest.ContainsSubstring | cmd/main_test.go:124-131 | true iff the substring occurs at some index |
| MainTest.Contains | cmd/main_test.go:114-122 | the shortcut version means exactly the same as the scan: true iff the substring occurs |
| MainTest.NoRoom | cmd/main_test.go:116 | a shorter string, or a different one of the same length, does not contain the substring |
| MainTest.ContainsSelfAndEmpty | cmd/main_test.go:116-119 | every string contains itself and the empty string |

## Left out

- HTTP: routing, redirects other than the setup redirect, status codes, `r.ParseForm` failures, templates and their rendering. A handler's answer is a `Handlers.Response`.
- The YAML encoder, the front-matter parser, the markdown renderer and the HTML-to-markdown conversion of the editor are parameters. Nothing is claimed about their output except the `Management.Coherent` assumption where a lemma states it.
- Wall-clock time is a parameter (`now`, or `dateNow` and `publishNow` for the two readings of a new post). Its format is not modelled.
- `Paths.JoinPath` does not apply `filepath.Clean`: paths are assumed clean, with no `..`, `.` or doubled separators.
- `os.ReadDir` lists names sorted by name. A `Disk` listing is in whatever order it holds, with new files appended, so no result is stated in name order.
- Go distinguishes nil from empty slices and maps. The model does not: a "nil result plus error" is an `Err`, and an empty result is an empty sequence or map.
- Go strings are bytes; the model's are Unicode scalar values. Byte-wise order agrees with code-point order for valid UTF-8; invalid UTF-8 is not modelled. Indices and lengths count characters, not bytes.
- TestHelpers.IndexOf: returns a character index where Go returns a byte offset; the two agree on ASCII text only.
- Slugs.ToLowerAscii: lower-cases only `A`–`Z`. CreatePost's body is not part of this model, and a non-ASCII letter whose lower case is an ASCII letter (U+212A KELVIN SIGN) is dropped here rather than kept.
- Slugs.Slug: each space becomes its own hyphen. A rule collapsing a run of spaces into one hyphen would fit the tests equally well; no test has two spaces in a row.
- Creation.Placed: CreatePost's body is not in the source, so the model assumes that it writes the stem back as the post's slug.
- Creation.CreatePost: the empty-title case writes a file named `.md`. The test accepts either that or an error, so the model's choice is one of two allowed outcomes.
- Sorting.SortDescending: the relative order of posts with equal dates is not stated, since `sort.Slice` is not stable.
- Management.GetPost: the file handle opened at internal/application/management.go:17 is never closed; handles are not modelled.
- FileSystem.WriteFile: file permissions, partial writes and I/O errors other than a missing parent directory are not modelled.
- LoadPosts.LoadPosts: the `models.Post` it stores is not part of this model. `Models.FlatPost` stands in for it, with an empty date and content.
- TagIndex.Cms.GetTags: Go's randomised map iteration is modelled as an arbitrary choice of the next key.
- Handlers.FormOf: the editor template that fills in the form is not part of this model. FormOf assumes it shows each field as stored, with the tags joined by ",".
- Concurrent requests and their unsynchronised access to the tag index and to files are not modelled.
- `GetCMS` in internal/handlers/cms.go does not compile as shown, and is not modelled.
- Configuration, startup, the setup handlers, the home, post-view and `Get` handlers, and `getConfigDir` are not modelled; they have no repository logic.
