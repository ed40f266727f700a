/** The file storage that holds uploaded images, as the set of stored paths. */
module Storage {

  type Path = string

  class FileStorage {
    var files: set<Path>

    constructor(files: set<Path>)
      ensures this.files == files
    {
      this.files := files;
    }

    /** `storage.delete(name)`; deleting a missing file is a no-op. */
    method Delete(name: Path)
      modifies this
      ensures files == old(files) - {name}
    {
      files := files - {name};
    }
  }
}
