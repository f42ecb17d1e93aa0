/**
 * What the three directory listings share: the ".md"/".markdown" filter over
 * the entry names, and the error-swallowing load-every-entry loop followed by a
 * sort by date (internal/application/management.go and internal/posts/getpost.go
 * run the same loop over two different post types).
 */
module Listing {
  import opened Results
  import opened Paths
  import opened FileSystem
  import opened Sorting

  /** The entry names that name posts, in listing order. */
  function Markdown(names: seq<string>): (r: seq<string>)
  {
    if names == [] then []
    else
      var init := Markdown(names[..|names| - 1]);
      if IsPostFile(names[|names| - 1]) then init + [names[|names| - 1]] else init
  }

  /** Markdown keeps exactly the post files, in their listing order, and drops every other entry. */
  lemma {:induction false} MarkdownKeepsPostFiles(names: seq<string>)
    ensures forall n :: n in Markdown(names) <==> n in names && IsPostFile(n)
    ensures |Markdown(names)| <= |names|
  {
    if names != [] {
      MarkdownKeepsPostFiles(names[..|names| - 1]);
      assert names == names[..|names| - 1] + [names[|names| - 1]];
    }
  }

  /** Filtering a concatenation is concatenating the filtered parts. */
  lemma {:induction false} MarkdownAppend(xs: seq<string>, ys: seq<string>)
    ensures Markdown(xs + ys) == Markdown(xs) + Markdown(ys)
  {
    if ys != [] {
      var init := ys[..|ys| - 1];
      MarkdownAppend(xs, init);
      assert (xs + ys)[..|xs + ys| - 1] == xs + init;
    } else {
      assert xs + ys == xs;
    }
  }

  /** Filtering one more entry adds it at the end exactly when it names a post. */
  lemma MarkdownSnoc(names: seq<string>, name: string)
    ensures Markdown(names + [name]) == Markdown(names) + (if IsPostFile(name) then [name] else [])
  {
    assert (names + [name])[..|names|] == names;
  }

  /** The post loaded from each name, in order. */
  function LoadEach<P>(dir: string, names: seq<string>, load: string -> P): (r: seq<P>)
    ensures |r| == |names|
  {
    seq(|names|, i requires 0 <= i < |names| => load(JoinPath(dir, names[i])))
  }

  /**
   * The loop of the error-swallowing GetPosts: every entry whose extension is
   * ".md" or ".markdown" contributes the post `load` yields for it (the zero
   * post when loading failed), and the result is sorted by descending date.
   */
  method ListLenient<P>(disk: Disk, dir: string, load: string -> P, date: P -> string) returns (r: Result<seq<P>>)
    ensures dir == [] ==> r == Err(EmptyDirectoryPath)
    ensures dir != [] && dir !in disk.dirs ==> r == Err(NoSuchDirectory(dir))
    ensures dir != [] && dir in disk.dirs ==>
      && r.Ok?
      && multiset(r.value) == multiset(LoadEach(dir, Markdown(disk.dirs[dir]), load))
      && |r.value| == |Markdown(disk.dirs[dir])|
      && DescendingBy(r.value, date)
  {
    if dir == [] {
      return Err(EmptyDirectoryPath);
    }
    var entries :- ReadDir(disk, dir);
    var posts := LoadPostFiles(dir, entries, load);
    var sorted := SortedDescending(posts, date);
    r := Ok(sorted);
  }

  /** The loop over the entries: each ".md"/".markdown" entry contributes what `load` yields for it. */
  method LoadPostFiles<P>(dir: string, entries: seq<string>, load: string -> P) returns (posts: seq<P>)
    ensures posts == LoadEach(dir, Markdown(entries), load)
  {
    posts := [];
    for i := 0 to |entries|
      invariant posts == LoadEach(dir, Markdown(entries[..i]), load)
    {
      var name := entries[i];
      var ext := Ext(name);
      assert entries[..i + 1] == entries[..i] + [name];
      MarkdownSnoc(entries[..i], name);
      if ext == ".md" || ext == ".markdown" {
        posts := posts + [load(JoinPath(dir, name))];
      }
    }
    assert entries[..|entries|] == entries;
  }
}
