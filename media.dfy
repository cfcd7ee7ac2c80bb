/**
 * What the browser hands every page: the files a picker or a drop delivers.
 */
module Media {

  datatype Option<T> = None | Some(value: T)

  /** A `File` from a file picker or a drop: its name, MIME type and byte size. */
  datatype FileInfo = FileInfo(name: string, mime: string, size: nat)
}
