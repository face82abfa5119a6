/** Page ids, tree nodes and what a page can hold. */
module Pages {
  import opened Bytes

  const INVALID_PAGE_ID := -1

  datatype Node = Node(
    isLeaf: bool,
    pageId: int,
    parentId: int,
    keys: seq<int>,
    values: seq<int>,
    children: seq<int>,
    nextLeaf: int)

  datatype Content = Zeros | OfNode(node: Node) | OfRecord(image: seq<byte>)
}
