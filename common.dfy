/** Types shared by the listers and the extractors: the file map that an
    extractor produces and a lister consumes, Go's `error`, and the byte. */
module Common {

  /** One byte of a Go `[]byte` or of a Go string's contents. */
  type byte = b: int | 0 <= b < 0x100

  /** tarutil.FilesMap: file name to raw contents. */
  type FilesMap = map<string, seq<byte>>

  /** An opaque Go `error` value; only its identity matters to this model. */
  datatype Error = Error(message: string)

  datatype Option<+T> = None | Some(value: T)

  /** The outcome of a step that returns a value or a Go `error`. */
  datatype Result<+T> = Ok(value: T) | Err(error: Error)
}
