/**
 * The part of the operating system the repository touches: regular files by
 * path, and directories with the entry names os.ReadDir lists for them.
 * Also the foreign libraries (YAML, front matter, markdown), which are
 * passed in as functions since their code is not part of this model.
 */
module FileSystem {
  import opened Results
  import opened Paths
  import opened Models

  datatype Disk = Disk(files: map<string, string>, dirs: map<string, seq<string>>)

  /** os.ReadDir: the entry names of an existing directory. */
  function ReadDir(disk: Disk, dir: string): Result<seq<string>>
  {
    if dir in disk.dirs then Ok(disk.dirs[dir]) else Err(NoSuchDirectory(dir))
  }

  /** os.Open followed by reading the whole file. */
  function Open(disk: Disk, path: string): Result<string>
  {
    if path in disk.files then Ok(disk.files[path]) else Err(NoSuchFile(path))
  }

  /**
   * os.WriteFile can create or truncate `path`: the path is not empty, its
   * parent directory exists and it is not itself a directory.
   */
  predicate CanWrite(disk: Disk, path: string)
  {
    path != [] && Dir(path) in disk.dirs && path !in disk.dirs
  }

  /**
   * os.WriteFile: replaces the whole file, creating it (and listing its name
   * in the parent directory) when it did not exist.
   */
  function WriteFile(disk: Disk, path: string, data: string): (r: Result<Disk>)
    ensures r.Ok? <==> CanWrite(disk, path)
    ensures r.Err? ==> r.error == CannotWrite(path)
    ensures r.Ok? ==> r.value.files == disk.files[path := data]
    ensures r.Ok? ==> r.value.dirs.Keys == disk.dirs.Keys
    ensures r.Ok? ==> Base(path) in r.value.dirs[Dir(path)]
    ensures r.Ok? ==>
      var listing := disk.dirs[Dir(path)];
      r.value.dirs[Dir(path)] == if Base(path) in listing then listing else listing + [Base(path)]
    ensures r.Ok? ==> forall d :: d in disk.dirs && d != Dir(path) ==> r.value.dirs[d] == disk.dirs[d]
  {
    if !CanWrite(disk, path) then Err(CannotWrite(path))
    else
      var parent, name := Dir(path), Base(path);
      var listing := disk.dirs[parent];
      var listing' := if name in listing then listing else listing + [name];
      Ok(Disk(disk.files[path := data], disk.dirs[parent := listing']))
  }

  /**
   * The libraries the repository calls into: frontmatter.Parse (front matter
   * and the rest of the file), goldmark's Convert (markdown to HTML) and
   * yaml.Marshal. Each may fail.
   */
  datatype Codecs = Codecs(
    parse: string -> Result<(FrontMatter, string)>,
    render: string -> Result<string>,
    marshal: FrontMatter -> Result<string>)
}
