/** The SD card as the firmware sees it: a set of named files, and the handle
    of a file opened for reading. */
module Storage {

  /** The card, shared by the logger and the reader: file contents by path.
      `sd.exists(path)` is `path in files`. */
  class SdCard {
    var files: map<string, string>

    constructor (files: map<string, string>)
      ensures this.files == files
    {
      this.files := files;
    }
  }

  /** An open file: what it holds and where the next `read()` takes a character
      from. `available()` is `pos < |data|`. */
  datatype File = File(data: string, pos: nat)
}
