/** The tar archive exchanged between push and pull, seen as the sequence of records a
    `tar.Reader` yields. The gzip and tar byte formats are not part of this model. */
module Archive {
  import opened FileSystem

  /** The header's type flag: a directory, a regular file, or anything else. */
  datatype TypeFlag = TypeDir | TypeReg | TypeOther(code: int)

  datatype Header = Header(name: string, typeflag: TypeFlag)

  /** One step of `tar.Reader.Next`: a header with the bytes that follow it, or a nil header. */
  datatype Record = Entry(header: Header, content: seq<Byte>) | NilHeader

  /** How the record sequence ends: cleanly at end of file, or with a read error. */
  datatype End = Eof | Broken(msg: string)

  datatype Body = Body(records: seq<Record>, end: End)
}
