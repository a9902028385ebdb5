/** The files under MEDIA_ROOT (temporary uploads, reports, extracted texts): os.path.exists
    is membership, os.remove takes a path out. */
module Storage {

  class FileStore {
    var files: set<string>

    constructor(initial: set<string>)
      ensures files == initial
    {
      files := initial;
    }

    /** os.path.exists. */
    function Exists(path: string): bool
      reads this
    {
      path in files
    }

    /** os.remove of an existing file. */
    method Remove(path: string)
      requires path in files
      modifies this
      ensures files == old(files) - {path}
    {
      files := files - {path};
    }
  }
}
