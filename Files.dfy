/**
 * The one file both the reader and the writer work on, as the file system
 * shows it to them: whether it exists, whether it may be read or opened for
 * writing, and its bytes.
 */
module Files {
  import opened Bytes

  class File {
    var present: bool
    var readable: bool
    var writable: bool
    var contents: seq<byte>

    constructor (present: bool, readable: bool, writable: bool, contents: seq<byte>)
      requires !present ==> contents == []
      ensures this.present == present && this.readable == readable
      ensures this.writable == writable && this.contents == contents
    {
      this.present := present;
      this.readable := readable;
      this.writable := writable;
      this.contents := contents;
    }
  }
}
