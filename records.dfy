/**
 * The persisted shape of one node (`NestedSetProperties`): a plain record.
 * The identity and audit fields are opaque to the core; a node never stores
 * them, nor its tag or type, so a record projected from a node carries them
 * as `None` ("not set": `null` and `undefined` are not told apart).
 */
module Records {
  import opened Shape
  import opened Arena

  datatype Record = Record(
    uuid: Option<string>,
    orgUuid: Option<string>,
    title: string,
    tag: Option<string>,
    left: int,
    right: int,
    depth: int,
    nodeType: Option<string>,
    createdBy: Option<string>,
    updatedBy: Option<string>,
    createdAt: Option<string>,
    updatedAt: Option<string>,
    deletedBy: Option<string>,
    deletedAt: Option<string>)

  /** `toNestedSetProperties()`: the node's title and triple; every field the node never stored is unset. */
  function ToRecord(p: Props): (r: Record)
    ensures r.tag == None
    ensures r.title == p.title && r.left == p.left && r.right == p.right && r.depth == p.depth
  {
    Record(None, None, p.title, None, p.left, p.right, p.depth, None, None, None, None, None, None, None)
  }
}
