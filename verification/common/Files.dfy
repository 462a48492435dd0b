/** A file system as the loggers see it. */
module Files {
  /** The files by name. Operations fail only when the file they need is missing. */
  class FileSystem {
    var files: map<string, string>

    constructor (files: map<string, string>)
      ensures this.files == files
    {
      this.files := files;
    }

    method Unlink(name: string) returns (rc: int)
      modifies this
      ensures (rc == 0 <==> name in old(files)) && files == old(files) - {name}
    {
      rc := if name in files then 0 else -1;
      files := files - {name};
    }

    method Rename(name: string, target: string) returns (rc: int)
      modifies this
      ensures rc == 0 <==> name in old(files)
      ensures files == if name in old(files) then (old(files) - {name})[target := old(files)[name]] else old(files)
    {
      if name !in files {
        return -1;
      }
      files := (files - {name})[target := files[name]];
      return 0;
    }

    /** `fopen` for writing from scratch. */
    method Create(name: string)
      modifies this
      ensures files == old(files)[name := ""]
    {
      files := files[name := ""];
    }

    /** `open` with `O_CREAT`. */
    method Open(name: string, truncate: bool)
      modifies this
      ensures files == if name in old(files) && !truncate then old(files) else old(files)[name := ""]
    {
      if name !in files || truncate {
        files := files[name := ""];
      }
    }

    method Write(name: string, text: string)
      requires name in files
      modifies this
      ensures files == old(files)[name := old(files)[name] + text]
    {
      files := files[name := files[name] + text];
    }
  }
}
