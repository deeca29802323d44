/** The wallpapers directory: the only state the script changes. A file is
    known by its name inside the directory; presence of the name is what
    `Path.exists()` reports. */
module FileSystem {
  import opened Common

  class Directory {
    /** The directory's own path, as `str(wallpapers_dir)`. */
    const path: string
    /** Name -> content of every file in the directory. */
    var files: map<string, Bytes>

    constructor (path: string, files: map<string, Bytes>)
      ensures this.path == path && this.files == files
    {
      this.path := path;
      this.files := files;
    }

    /** Whether the directory holds a file of that name. */
    predicate Exists(name: string)
      reads this
    {
      name in files
    }

    /** The full path of the file of that name in the directory. */
    function PathOf(name: string): string {
      path + "/" + name
    }

    /** Reads a whole file (Image.open on an existing file). */
    method Read(name: string) returns (content: Bytes)
      requires name in files
      ensures content == files[name]
    {
      content := files[name];
    }

    /** Creates or replaces one file; every other file is left as it was. */
    method Write(name: string, content: Bytes)
      modifies this
      ensures files == old(files)[name := content]
    {
      files := files[name := content];
    }
  }
}
