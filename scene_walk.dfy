/** The order in which the scene walk creates entities: depth first, a
    node's own mesh references before its children, children in order. */
module SceneWalk {
  import opened Imported

  /** One entity the walk creates: its name and the mesh it translates. */
  datatype MeshRef = MeshRef(name: string, mesh: nat)

  /** The name given to a node's mesh entities: the node's name, or the
      placeholder "New node" when that name is empty. */
  function EntityName(nodeName: string): (name: string)
    ensures name != []
    ensures nodeName != [] ==> name == nodeName
    ensures nodeName == [] ==> name == "New node"
  {
    if |nodeName| == 0 then "New node" else nodeName
  }

  /** The entities made for a node's own mesh references, in index order. */
  function OwnRefs(node: Node): (refs: seq<MeshRef>)
    ensures |refs| == |node.meshes|
    ensures forall i :: 0 <= i < |refs| ==> refs[i] == MeshRef(EntityName(node.name), node.meshes[i])
  {
    seq(|node.meshes|, i requires 0 <= i < |node.meshes| => MeshRef(EntityName(node.name), node.meshes[i]))
  }

  /** Everything the walk of a subtree creates, in creation order. */
  function Walk(node: Node): seq<MeshRef>
    decreases node, 1
  {
    OwnRefs(node) + WalkAll(node.children)
  }

  function WalkAll(nodes: seq<Node>): seq<MeshRef>
    decreases nodes, 0
  {
    if nodes == [] then []
    else WalkAll(nodes[..|nodes| - 1]) + Walk(nodes[|nodes| - 1])
  }

  /** Walking one more child extends what the walk of a node has created so
      far by exactly that child's walk. */
  lemma WalkPrefixSnoc(node: Node, c: nat)
    requires c < |node.children|
    ensures OwnRefs(node) + WalkAll(node.children[..c + 1])
         == (OwnRefs(node) + WalkAll(node.children[..c])) + Walk(node.children[c])
  {
    assert node.children[..c + 1][..c] == node.children[..c];
  }

  /** The number of mesh references in a subtree, counted independently. */
  function MeshCount(node: Node): nat
    decreases node, 1
  {
    |node.meshes| + MeshCountAll(node.children)
  }

  function MeshCountAll(nodes: seq<Node>): nat
    decreases nodes, 0
  {
    if nodes == [] then 0 else MeshCount(nodes[0]) + MeshCountAll(nodes[1..])
  }

  lemma {:induction false} MeshCountAllSnoc(nodes: seq<Node>)
    requires nodes != []
    ensures MeshCountAll(nodes) == MeshCountAll(nodes[..|nodes| - 1]) + MeshCount(nodes[|nodes| - 1])
    decreases |nodes|
  {
    if |nodes| > 1 {
      MeshCountAllSnoc(nodes[1..]);
      assert nodes[1..][..|nodes[1..]| - 1] == nodes[..|nodes| - 1][1..];
    }
  }

  /** The walk creates exactly one entity per mesh reference in the subtree. */
  lemma {:induction false} WalkLength(node: Node)
    ensures |Walk(node)| == MeshCount(node)
    decreases node, 1
  {
    WalkAllLength(node.children);
  }

  lemma {:induction false} WalkAllLength(nodes: seq<Node>)
    ensures |WalkAll(nodes)| == MeshCountAll(nodes)
    decreases nodes, 0
  {
    if nodes != [] {
      WalkAllLength(nodes[..|nodes| - 1]);
      WalkLength(nodes[|nodes| - 1]);
      MeshCountAllSnoc(nodes);
    }
  }

  /** Every entity the walk creates translates a mesh the subtree refers to,
      so a subtree with valid references only names existing meshes. */
  lemma {:induction false} WalkRefsValid(node: Node, meshCount: nat)
    requires RefsValid(node, meshCount)
    ensures forall k :: 0 <= k < |Walk(node)| ==> Walk(node)[k].mesh < meshCount && Walk(node)[k].name != []
    decreases node, 1
  {
    WalkAllRefsValid(node.children, meshCount);
  }

  lemma {:induction false} WalkAllRefsValid(nodes: seq<Node>, meshCount: nat)
    requires forall i :: 0 <= i < |nodes| ==> RefsValid(nodes[i], meshCount)
    ensures forall k :: 0 <= k < |WalkAll(nodes)| ==> WalkAll(nodes)[k].mesh < meshCount && WalkAll(nodes)[k].name != []
    decreases nodes, 0
  {
    if nodes != [] {
      WalkAllRefsValid(nodes[..|nodes| - 1], meshCount);
      WalkRefsValid(nodes[|nodes| - 1], meshCount);
    }
  }
}
