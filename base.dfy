/** Basic value types shared by the ingestion tool and the web service. */
module Base {

  /** One octet of file content. */
  type Byte = b: int | 0 <= b < 256

  /** The content of a file, an archive entry or a stored blob. */
  type Bytes = seq<Byte>

  datatype Option<+T> = None | Some(value: T)
}
