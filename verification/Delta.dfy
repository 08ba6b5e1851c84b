/** The stored form of a patch: the three fields of a delta entry that the applier reads back. */
module Delta {
  import opened Builder
  import opened HexText

  datatype Node = Node(patternBytes: string, patchBytes: string, patchOffset: int)

  function NodeOf(e: Edit): Node {
    Node(HexOf(e.matchBytes), HexOf(e.patchBytes), e.patchOffset)
  }

  /** Entries whose texts can be read. */
  ghost predicate Loadable(n: Node) {
    IsHexText(n.patternBytes) && IsHexText(n.patchBytes)
  }

  ghost function EditOf(n: Node): Edit
    requires Loadable(n)
  {
    Edit(BytesOf(n.patternBytes), BytesOf(n.patchBytes), n.patchOffset)
  }

  method PtreeNode(e: Edit) returns (n: Node)
    ensures n == NodeOf(e)
    ensures n.patternBytes == HexOf(e.matchBytes) && n.patchBytes == HexOf(e.patchBytes) && n.patchOffset == e.patchOffset
  {
    var patternBytes := Bytes2Hex(e.matchBytes);
    var patchBytes := Bytes2Hex(e.patchBytes);
    n := Node(patternBytes, patchBytes, e.patchOffset);
  }

  method LoadPatch(n: Node) returns (e: Edit)
    requires Loadable(n)
    ensures e == EditOf(n)
    ensures e.matchBytes == BytesOf(n.patternBytes) && e.patchBytes == BytesOf(n.patchBytes)
    ensures e.patchOffset == n.patchOffset
  {
    var matchBytes := Hex2Bytes(n.patternBytes);
    var patchBytes := Hex2Bytes(n.patchBytes);
    e := Edit(matchBytes, patchBytes, n.patchOffset);
  }

  /** Storing and loading a patch with a non-empty pattern and change gives the same patch. */
  lemma StoreLoad(e: Edit)
    requires 0 < |e.matchBytes| && 0 < |e.patchBytes|
    ensures Loadable(NodeOf(e)) && EditOf(NodeOf(e)) == e
  {
    HexRoundTrip(e.matchBytes);
    HexRoundTrip(e.patchBytes);
  }
}
