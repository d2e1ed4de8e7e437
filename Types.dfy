/** Identifier and address types shared by the membership view. */
module ClusterTypes {

  /** A cluster node identifier. Only its total order matters to the view: it keys
      every map and set and decides which joiner comes first. */
  type MemberId = int

  /** A connection address advertised by a node. It is an attribute of a MemberId,
      never a key, and has no order of its own. */
  datatype Url = Url(text: string)

  /** The address returned for an id that has none recorded. */
  const EmptyUrl: Url := Url("")

  datatype Option<T> = None | Some(value: T)
}
