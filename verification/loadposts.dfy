/**
 * LoadPosts of internal/application/loadposts.go: a map from the name of
 * every ".md"/".markdown" entry of a directory to a placeholder post that
 * carries only that name and the joined path. No file is read.
 */
module LoadPosts {
  import opened Results
  import opened Paths
  import opened Models
  import opened FileSystem
  import opened Listing

  /** The placeholder stored for an entry: its name as title, its joined path, no tags. */
  function Placeholder(dir: string, name: string): FlatPost
  {
    FlatPost(name, JoinPath(dir, name), "", [], "")
  }

  method LoadPosts(disk: Disk, dir: string) returns (r: Result<map<string, FlatPost>>)
    ensures dir == [] ==> r == Err(EmptyDirectoryPath)
    ensures dir != [] && dir !in disk.dirs ==> r == Err(NoSuchDirectory(dir))
    ensures dir != [] && dir in disk.dirs ==>
      && r.Ok?
      && (forall n :: n in r.value <==> n in disk.dirs[dir] && IsPostFile(n))
      && (forall n :: n in r.value ==> r.value[n] == Placeholder(dir, n))
  {
    if dir == [] {
      return Err(EmptyDirectoryPath);
    }
    var entries :- ReadDir(disk, dir);
    var posts: map<string, FlatPost> := map[];
    for i := 0 to |entries|
      invariant forall n :: n in posts <==> n in entries[..i] && IsPostFile(n)
      invariant forall n :: n in posts ==> posts[n] == Placeholder(dir, n)
    {
      var name := entries[i];
      assert entries[..i + 1] == entries[..i] + [name];
      var ext := Ext(name);
      if ext == ".md" || ext == ".markdown" {
        posts := posts[name := FlatPost(name, JoinPath(dir, name), "", [], "")];
      }
    }
    assert entries[..|entries|] == entries;
    r := Ok(posts);
  }

  /** The keys LoadPosts produces are exactly the names the GetPosts listings load. */
  lemma KeysAreListed(names: seq<string>, keys: set<string>)
    requires forall n :: n in keys <==> n in names && IsPostFile(n)
    ensures forall n :: n in keys <==> n in Markdown(names)
    ensures |keys| <= |Markdown(names)|
  {
    MarkdownKeepsPostFiles(names);
    assert keys == set n | n in Markdown(names);
    SetOfSeqSize(Markdown(names));
  }

  lemma {:induction false} SetOfSeqSize(s: seq<string>)
    ensures |set n | n in s| <= |s|
  {
    if s != [] {
      SetOfSeqSize(s[1..]);
      assert (set n | n in s) == (set n | n in s[1..]) + {s[0]};
    }
  }
}
