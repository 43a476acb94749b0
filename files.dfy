// The upload directory and the outcome of an upload, as the controllers see
// them. `file_exists` / `unlink` become membership in and removal from a set
// of paths; `handleFileUpload` (controllers/FeatureController.php:1469-1512),
// with its size, extension and move checks, is summarised by its outcome.
module Files {

  /** What `handleFileUpload` reports for the posted file field. */
  datatype Upload =
    | NoFile                     // UPLOAD_ERR_NO_FILE, or no such field
    | Stored(path: string)       // moved to `uploads/<uniqid>_<name>`
    | Refused(message: string)   // the error text it returns

  /** The files that exist, by path. */
  class Disk {
    var files: set<string>

    constructor (files: set<string>)
      ensures this.files == files
    {
      this.files := files;
    }

    /** `move_uploaded_file` to `path`. */
    method Store(path: string)
      modifies this
      ensures files == old(files) + {path}
    {
      files := files + {path};
    }

    /** `file_exists($path) && unlink($path)`: true when there was a file to remove. */
    method Unlink(path: string) returns (removed: bool)
      modifies this
      ensures removed == (path in old(files))
      ensures files == old(files) - {path}
    {
      removed := path in files;
      files := files - {path};
    }
  }
}
