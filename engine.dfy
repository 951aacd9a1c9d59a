/** The engine side that the loader fills: the mesh component, updated in
    place, and the destination scene, which records every entity it creates.
    Only what the loader uses of the entity-component system is modelled:
    creating an entity under an optional parent and adding a mesh component
    to it. */
module Engine {
  import opened Imported
  import opened BoneRegistry
  import opened Skinning
  import opened MeshSpec

  /** A mesh component: CPU-side mesh data, populated in place. */
  class Mesh {
    var vertices: seq<Vec3>
    var normals: seq<Vec3>
    var textureCoordinates: seq<Vec2>
    var indices: seq<nat>
    var boneIDs: seq<seq<int>>
    var boneWeights: seq<seq<real>>
    var boneInfoMap: map<string, BoneInfo>
    var boneCounter: int
    /** The texture list of the mesh renderer's material. */
    var textures: seq<Texture>

    ghost function Data(): MeshData
      reads this
    {
      MeshData(vertices, normals, textureCoordinates, indices, boneIDs, boneWeights,
               boneInfoMap, boneCounter, textures)
    }

    ghost function Skin(): Skin
      reads this
    {
      Data().Skin()
    }

    ghost function Bones(): Registry
      reads this
    {
      Data().Bones()
    }

    ghost predicate Valid()
      reads this
    {
      Data().Valid()
    }

    /** A new mesh component holds no data and a fresh bone registry. */
    constructor ()
      ensures Data() == EmptyMesh && Valid()
    {
      vertices, normals, textureCoordinates, indices := [], [], [], [];
      boneIDs, boneWeights := [], [];
      boneInfoMap, boneCounter := map[], 0;
      textures := [];
    }
  }

  /** An entity is named by its index in the scene's creation order. */
  type EntityId = nat

  datatype Entity = Entity(name: string, parent: Option<EntityId>, mesh: Option<Mesh>)

  /** The destination scene: every entity it holds, in creation order. */
  class Scene {
    var entities: seq<Entity>

    constructor ()
      ensures entities == []
    {
      entities := [];
    }

    /** Create an entity with the given name, attached to `parent` if any. */
    method CreateGameObject(name: string, parent: Option<EntityId>) returns (id: EntityId)
      requires parent.Some? ==> parent.value < |entities|
      modifies this
      ensures id == |old(entities)|
      ensures entities == old(entities) + [Entity(name, parent, None)]
    {
      id := |entities|;
      entities := entities + [Entity(name, parent, None)];
    }

    /** Attach a new, empty mesh component to entity `id`. */
    method AddMeshComponent(id: EntityId) returns (m: Mesh)
      requires id < |entities|
      modifies this
      ensures fresh(m) && m.Valid() && m.Data() == EmptyMesh
      ensures entities == old(entities)[id := old(entities)[id].(mesh := Some(m))]
    {
      m := new Mesh();
      entities := entities[id := entities[id].(mesh := Some(m))];
    }
  }
}
