/** The decoded scene that the asset importer hands to the loader. Everything
    here is a read-only value: the loader never changes the imported scene. */
module Imported {

  datatype Option<T> = None | Some(value: T)

  /** Floating-point components are only ever copied by the loader, never
      combined, so they are modelled as reals. */
  datatype Vec3 = Vec3(x: real, y: real, z: real)
  datatype Vec2 = Vec2(x: real, y: real)

  /** A bone's offset (inverse bind) matrix, kept opaque: its entries row by row. */
  datatype Matrix4 = Matrix4(entries: seq<real>)

  /** One (vertex, weight) pair of a bone binding. */
  datatype VertexWeight = VertexWeight(vertexId: nat, weight: real)

  /** A named bone with its offset matrix and the vertices it influences. */
  datatype Bone = Bone(name: string, offset: Matrix4, weights: seq<VertexWeight>)

  /** A face is a list of vertex indices; after triangulation it has three. */
  datatype Face = Face(indices: seq<nat>)

  datatype ImportedMesh = ImportedMesh(
    positions: seq<Vec3>,
    normals: Option<seq<Vec3>>,   // absent when the file declares no normals
    uv0: Option<seq<Vec3>>,       // the first texture-coordinate channel, if any
    faces: seq<Face>,
    bones: seq<Bone>,
    materialIndex: nat)
  {
    /** The importer's own test: a normal array exists and there are vertices. */
    predicate HasNormals() {
      normals.Some? && |positions| > 0
    }

    /** What the importer guarantees about a decoded mesh: parallel arrays are
        as long as the position array and every bone weight names a vertex. */
    ghost predicate Valid() {
      && (normals.Some? ==> |normals.value| == |positions|)
      && (uv0.Some? ==> |uv0.value| == |positions|)
      && forall b, w :: 0 <= b < |bones| && 0 <= w < |bones[b].weights| ==>
           bones[b].weights[w].vertexId < |positions|
    }
  }

  datatype TextureType = Diffuse | Specular | Ambient | Height | Normals

  /** A material lists, per texture type, the file paths of its textures. */
  datatype Material = Material(textures: map<TextureType, seq<string>>) {
    function TexturePaths(t: TextureType): seq<string> {
      if t in textures then textures[t] else []
    }
  }

  /** A node of the imported hierarchy: a name, indices into the scene's mesh
      array, and ordered children. */
  datatype Node = Node(name: string, meshes: seq<nat>, children: seq<Node>)

  /** The importer's scene-flag bit that marks an incomplete import. */
  const SCENE_FLAGS_INCOMPLETE: bv32 := 0x1

  datatype ImportedScene = ImportedScene(
    flags: bv32,
    root: Option<Node>,
    meshes: seq<ImportedMesh>,
    materials: seq<Material>)
  {
    /** Every mesh is well formed and names an existing material. */
    ghost predicate MeshesValid() {
      forall k :: 0 <= k < |meshes| ==> meshes[k].Valid() && meshes[k].materialIndex < |materials|
    }
  }

  /** Every mesh reference in the subtree of `n` indexes an existing mesh. */
  ghost predicate RefsValid(n: Node, meshCount: nat)
    decreases n
  {
    && (forall i :: 0 <= i < |n.meshes| ==> n.meshes[i] < meshCount)
    && (forall i :: 0 <= i < |n.children| ==> RefsValid(n.children[i], meshCount))
  }
}
