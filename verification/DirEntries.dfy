/** Directory entries, as the file system lists them and getdents64 encodes them. */
module DirEntries {
  datatype Kind = Regular | Directory | Symlink

  /** An entry whose name is a string, or the bytes that encode one. */
  datatype Entry<+N> = Entry(name: N, kind: Kind)
}
