/** The local upload directory: the temporary files multer wrote, each with
    its size in bytes (what `fs.statSync(path).size` reports). */
module LocalDisk {

  /** The message Node.js gives when a file system call finds no file. */
  function MissingFileMessage(syscall: string, path: string): string {
    "ENOENT: no such file or directory, " + syscall + " '" + path + "'"
  }

  class Disk {
    var files: map<string, nat>

    constructor (files: map<string, nat>)
      ensures this.files == files
    {
      this.files := files;
    }

    /** `fs.unlinkSync(path)`: fails when the file does not exist. */
    method Unlink(path: string) returns (ok: bool)
      modifies this
      ensures ok <==> path in old(files)
      ensures files == old(files) - {path}
    {
      ok := path in files;
      files := files - {path};
    }
  }
}
