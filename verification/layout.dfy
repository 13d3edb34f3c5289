/** A container on disk is a directory holding two files, `header` and
    `data`. A directory is modelled as the map from file name to contents. */
module Layout {
  import opened Bytes

  type Files = map<string, seq<byte>>

  const HeaderName: string := "header"
  const DataName: string := "data"
}
