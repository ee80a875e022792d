/**
 * The file-system service, reduced to the files it holds: a map from path
 * to UTF-8 text.  `fileExists`, `readFile` and `writeFile` are its methods;
 * reading a missing file is the error `readFile` would throw.
 */
module Store {
  import opened Options

  class FileStore {
    var files: map<string, string>

    constructor (initial: map<string, string>)
      ensures files == initial
    {
      files := initial;
    }

    /** `fileExists`. */
    method Exists(path: string) returns (b: bool)
      ensures b <==> path in files
    {
      b := path in files;
    }

    /** `readFile`: `None` stands for the error of a missing file. */
    method Read(path: string) returns (r: Option<string>)
      ensures r == if path in files then Some(files[path]) else None
    {
      r := if path in files then Some(files[path]) else None;
    }

    /** `writeFile`: creates or replaces the file; nothing else changes. */
    method Write(path: string, content: string)
      modifies this
      ensures files == old(files)[path := content]
    {
      files := files[path := content];
    }
  }
}
