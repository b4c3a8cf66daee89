/**
  The text buffer: the lines of the file being edited and whether they differ
  from the file. Loading replaces the lines with those of the file's content.
  The file read is a parameter: its outcome, content or error, is passed in.
*/
module Buffer {
  import opened Wrappers
  import opened RustStr

  /** A failed read; the operating system's reason is not modelled. */
  datatype IoError = IoError

  /** The load error names the file that could not be read. */
  datatype LoadError = ReadFailed(path: string, cause: IoError)

  class TextBuffer {
    var text: seq<seq<char>>
    var dirty: bool

    /** `TextBuffer::default`: no lines, nothing to save. */
    constructor ()
      ensures text == [] && !dirty
    {
      text := [];
      dirty := false;
    }

    /**
      `load_file`: on a successful read the lines are those `str::lines` finds
      in the content and the buffer is clean; a failed read returns before
      anything is assigned.
    */
    method LoadFile(path: string, read: Result<string, IoError>) returns (r: Result<(), LoadError>)
      modifies this
      ensures read.Ok? ==> r == Ok(()) && text == Lines(read.value) && !dirty
      ensures read.Err? ==> r == Err(ReadFailed(path, read.error)) && text == old(text) && dirty == old(dirty)
    {
      if read.Err? {
        return Err(ReadFailed(path, read.error));
      }
      text := Lines(read.value);
      dirty := false;
      return Ok(());
    }
  }
}
