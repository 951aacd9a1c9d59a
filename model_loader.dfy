/** The model loader: the two load entry points, the scene walk that creates
    one entity per mesh reference, the mesh translator, and the texture
    resolver. The asset decoder is not modelled; its answer is a parameter. */
module ModelLoader {
  import opened Imported
  import opened Influences
  import opened BoneRegistry
  import opened Skinning
  import opened MeshSpec
  import opened SceneWalk
  import opened Engine

  // ---------------------------------------------------------------------
  // Decode check and entity naming
  // ---------------------------------------------------------------------

  /** The decoder's answer is unusable when there is no scene, when the
      scene carries the incomplete flag, or when it has no root node. */
  function DecodeFailed(scene: Option<ImportedScene>): (failed: bool)
    ensures !failed ==> scene.Some? && scene.value.root.Some?
    ensures !failed ==> scene.value.flags & SCENE_FLAGS_INCOMPLETE == 0
    ensures scene.Some? && scene.value.root.Some? && scene.value.flags & SCENE_FLAGS_INCOMPLETE == 0 ==> !failed
  {
    scene.None? || scene.value.flags & SCENE_FLAGS_INCOMPLETE != 0 || scene.value.root.None?
  }

  /** `std::string::npos` for a 64-bit `size_t`, and the modulus of that type. */
  const NPOS: nat := 0xFFFF_FFFF_FFFF_FFFF
  const SIZE_MODULUS: nat := 0x1_0000_0000_0000_0000

  predicate IsSeparator(c: char) {
    c == '/' || c == '\\'
  }

  /** `find_last_of("\\/")`: the index of the last separator, or npos when
      there is none. */
  function FindLastSeparator(s: string): (i: nat)
    requires |s| < NPOS
    ensures i == NPOS || (i < |s| && IsSeparator(s[i]))
    ensures i != NPOS ==> forall j :: i < j < |s| ==> !IsSeparator(s[j])
    ensures i == NPOS ==> forall j :: 0 <= j < |s| ==> !IsSeparator(s[j])
  {
    if s == [] then NPOS
    else if IsSeparator(s[|s| - 1]) then |s| - 1
    else FindLastSeparator(s[..|s| - 1])
  }

  /** The entity name of the child-attaching entry point:
      `substr(find_last_of("\\/") + 1)`, where npos + 1 wraps round to 0 in
      `size_t`, so a path without separators is kept whole. */
  function BaseName(path: string): string
    requires |path| < NPOS
  {
    path[(FindLastSeparator(path) + 1) % SIZE_MODULUS..]
  }

  /** The base name is a suffix of the path with no separator in it; it
      starts right after a separator unless it is the whole path; a path
      without separators is its own base name. */
  lemma BaseNameSpec(path: string)
    requires |path| < NPOS
    ensures var name := BaseName(path);
      && |name| <= |path|
      && name == path[|path| - |name|..]
      && (forall j :: 0 <= j < |name| ==> !IsSeparator(name[j]))
      && (|name| < |path| ==> IsSeparator(path[|path| - |name| - 1]))
      && ((forall j :: 0 <= j < |path| ==> !IsSeparator(path[j])) ==> name == path)
  {
    var i := FindLastSeparator(path);
    if i == NPOS {
      assert (i + 1) % SIZE_MODULUS == 0;
    } else {
      assert (i + 1) % SIZE_MODULUS == i + 1;
    }
  }

  // ---------------------------------------------------------------------
  // Texture resolver
  // ---------------------------------------------------------------------

  /** Append one texture handle per texture of type `t` in `material`, in
      index order, to the mesh's material texture list. */
  method TexturesFromMaterial(material: Material, t: TextureType, mesh: Mesh)
    modifies mesh`textures
    ensures mesh.textures == old(mesh.textures) + LoadTextures(material.TexturePaths(t))
    ensures mesh.Data() == old(mesh.Data()).(textures := mesh.textures)
  {
    var paths := material.TexturePaths(t);
    var i := 0;
    while i < |paths|
      invariant 0 <= i <= |paths|
      invariant mesh.textures == old(mesh.textures) + LoadTextures(paths[..i])
    {
      mesh.textures := mesh.textures + [Texture(paths[i])];
      i := i + 1;
    }
    assert paths[..i] == paths;
  }

  // ---------------------------------------------------------------------
  // Mesh translator
  // ---------------------------------------------------------------------

  /** The bone registry lookup of the translator: a known name gives its id;
      an unknown one is registered under the counter's value with its offset
      and the counter moves on. The id returned is never the sentinel. */
  method RegisterBone(mesh: Mesh, name: string, offset: Matrix4) returns (boneId: int)
    requires Valid(mesh.Bones())
    modifies mesh`boneInfoMap, mesh`boneCounter
    ensures Registered(mesh.Bones(), boneId) == Register(old(mesh.Bones()), name, offset)
    ensures Valid(mesh.Bones()) && boneId != NoBone
    ensures mesh.Skin() == old(mesh.Skin())
  {
    RegisterSpec(mesh.Bones(), name, offset);
    RegisterKeepsValid(mesh.Bones(), name, offset);
    boneId := NoBone;
    if name !in mesh.boneInfoMap {
      mesh.boneInfoMap := mesh.boneInfoMap[name := BoneInfo(mesh.boneCounter, offset)];
      boneId := mesh.boneCounter;
      mesh.boneCounter := mesh.boneCounter + 1;
    } else {
      boneId := mesh.boneInfoMap[name].id;
    }
  }

  /** The influence assigner's step on vertex `vertexId`: scan its four
      slots in order and write the pair into the first one whose id is
      negative; with no such slot, change nothing. */
  method AddInfluence(mesh: Mesh, vertexId: nat, boneId: int, weight: real)
    requires mesh.Skin().Shaped() && vertexId < |mesh.boneIDs|
    modifies mesh`boneIDs, mesh`boneWeights
    ensures mesh.Skin() == old(mesh.Skin()).Put(vertexId, Place(old(mesh.Skin()).At(vertexId), boneId, weight))
  {
    var i := 0;
    while i < MaxInfluences
      invariant 0 <= i <= MaxInfluences
      invariant forall j :: 0 <= j < i ==> mesh.boneIDs[vertexId][j] >= 0
      invariant mesh.Skin() == old(mesh.Skin())
    {
      if mesh.boneIDs[vertexId][i] < 0 {
        mesh.boneWeights := mesh.boneWeights[vertexId := mesh.boneWeights[vertexId][i := weight]];
        mesh.boneIDs := mesh.boneIDs[vertexId := mesh.boneIDs[vertexId][i := boneId]];
        break;
      }
      i := i + 1;
    }
  }

  /** One pass of the vertex loop for source vertex `i`: push a free
      skinning entry and a vertex, then write the position into entry i, and
      likewise the normal and the UV when the source has them. */
  method CopyVertex(src: ImportedMesh, i: nat, mesh: Mesh)
    requires src.Valid() && i < |src.positions| && |mesh.vertices| == i
    requires src.HasNormals() ==> |mesh.normals| >= i
    requires src.uv0.Some? ==> |mesh.textureCoordinates| >= i
    modifies mesh`vertices, mesh`normals, mesh`textureCoordinates, mesh`boneIDs, mesh`boneWeights
    ensures mesh.vertices == old(mesh.vertices) + [src.positions[i]]
    ensures mesh.boneIDs == old(mesh.boneIDs) + [Empty.ids]
    ensures mesh.boneWeights == old(mesh.boneWeights) + [Empty.weights]
    ensures mesh.normals ==
      if src.HasNormals() then (old(mesh.normals) + [Zero3])[i := src.normals.value[i]] else old(mesh.normals)
    ensures mesh.textureCoordinates ==
      if src.uv0.Some? then (old(mesh.textureCoordinates) + [Zero2])[i := UvOf(src.uv0.value)[i]]
      else old(mesh.textureCoordinates)
  {
    mesh.boneIDs := mesh.boneIDs + [[NoBone, NoBone, NoBone, NoBone]];
    mesh.boneWeights := mesh.boneWeights + [[0.0, 0.0, 0.0, 0.0]];
    mesh.vertices := mesh.vertices + [Zero3];
    var p := src.positions[i];
    mesh.vertices := mesh.vertices[i := Vec3(p.x, p.y, p.z)];
    if src.HasNormals() {
      mesh.normals := mesh.normals + [Zero3];
      var nrm := src.normals.value[i];
      mesh.normals := mesh.normals[i := Vec3(nrm.x, nrm.y, nrm.z)];
    }
    if src.uv0.Some? {
      mesh.textureCoordinates := mesh.textureCoordinates + [Zero2];
      var uv := src.uv0.value[i];
      mesh.textureCoordinates := mesh.textureCoordinates[i := Vec2(uv.x, uv.y)];
    }
  }

  /** The mesh after `i` passes of the vertex loop over `src`, started on
      mesh data `m0` with a cleared vertex list. */
  ghost predicate CopiedUpTo(src: ImportedMesh, m0: MeshData, i: nat, mesh: Mesh)
    requires src.Valid() && i <= |src.positions|
    reads mesh
  {
    && mesh.vertices == src.positions[..i]
    && mesh.boneIDs == m0.boneIDs + Repeat(Empty.ids, i)
    && mesh.boneWeights == m0.boneWeights + Repeat(Empty.weights, i)
    && mesh.normals == (if src.HasNormals() then CopyIndexed(m0.normals, src.normals.value[..i], Zero3) else m0.normals)
    && mesh.textureCoordinates ==
         (if src.uv0.Some? then CopyIndexed(m0.textureCoordinates, UvOf(src.uv0.value)[..i], Zero2)
          else m0.textureCoordinates)
  }

  /** One pass of the vertex loop, seen against the whole loop: after pass
      `i` the mesh holds the first `i + 1` vertices' worth of copies. */
  method CopyNextVertex(src: ImportedMesh, ghost m0: MeshData, i: nat, mesh: Mesh)
    requires src.Valid() && i < |src.positions| && CopiedUpTo(src, m0, i, mesh)
    modifies mesh`vertices, mesh`normals, mesh`textureCoordinates, mesh`boneIDs, mesh`boneWeights
    ensures CopiedUpTo(src, m0, i + 1, mesh)
  {
    assert src.positions[..i + 1] == src.positions[..i] + [src.positions[i]];
    if src.HasNormals() {
      CopyIndexedStep(m0.normals, src.normals.value, Zero3, i);
    }
    if src.uv0.Some? {
      CopyIndexedStep(m0.textureCoordinates, UvOf(src.uv0.value), Zero2, i);
    }
    CopyVertex(src, i, mesh);
  }

  /** The vertex loop: clears the vertex list and copies every source vertex.
      Normals and UVs are written at index i counted from the front of lists
      that are not cleared, which `CopyIndexed` captures. */
  method CopyVertices(src: ImportedMesh, mesh: Mesh)
    requires src.Valid()
    modifies mesh`vertices, mesh`normals, mesh`textureCoordinates, mesh`boneIDs, mesh`boneWeights
    ensures mesh.vertices == src.positions
    ensures mesh.normals == if src.HasNormals() then CopyIndexed(old(mesh.normals), src.normals.value, Zero3) else old(mesh.normals)
    ensures mesh.textureCoordinates ==
      if src.uv0.Some? then CopyIndexed(old(mesh.textureCoordinates), UvOf(src.uv0.value), Zero2)
      else old(mesh.textureCoordinates)
    ensures mesh.Skin() == WithFreeSlots(old(mesh.Data()), |src.positions|)
    ensures mesh.Data() == old(mesh.Data()).(vertices := mesh.vertices, normals := mesh.normals,
      textureCoordinates := mesh.textureCoordinates, boneIDs := mesh.boneIDs, boneWeights := mesh.boneWeights)
  {
    ghost var m0 := mesh.Data();
    mesh.vertices := [];
    var n := |src.positions|;
    var i := 0;
    while i < n
      invariant 0 <= i <= n
      invariant CopiedUpTo(src, m0, i, mesh)
    {
      CopyNextVertex(src, m0, i, mesh);
      i := i + 1;
    }
    assert src.positions[..n] == src.positions;
    if src.HasNormals() {
      assert src.normals.value[..n] == src.normals.value;
    }
    if src.uv0.Some? {
      assert UvOf(src.uv0.value)[..n] == UvOf(src.uv0.value);
    }
  }

  /** The face loop: the index list becomes every face's indices, in order. */
  method CopyIndices(src: ImportedMesh, mesh: Mesh)
    modifies mesh`indices
    ensures mesh.indices == FlattenFaces(src.faces)
    ensures mesh.Data() == old(mesh.Data()).(indices := mesh.indices)
  {
    mesh.indices := [];
    var f := 0;
    while f < |src.faces|
      invariant 0 <= f <= |src.faces|
      invariant mesh.indices == FlattenFaces(src.faces[..f])
    {
      var face := src.faces[f];
      var j := 0;
      while j < |face.indices|
        invariant 0 <= j <= |face.indices|
        invariant mesh.indices == FlattenFaces(src.faces[..f]) + face.indices[..j]
      {
        mesh.indices := mesh.indices + [face.indices[j]];
        assert face.indices[..j + 1] == face.indices[..j] + [face.indices[j]];
        j := j + 1;
      }
      assert src.faces[..f + 1][..f] == src.faces[..f];
      assert face.indices[..j] == face.indices;
      f := f + 1;
    }
    assert src.faces[..f] == src.faces;
  }

  /** The weight loop of one bone: each (vertex, weight) pair, in order,
      goes to the assigner of the vertex it names. */
  method AssignWeights(mesh: Mesh, boneId: int, weights: seq<VertexWeight>)
    requires mesh.Skin().Shaped() && InRange(weights, |mesh.boneIDs|)
    modifies mesh`boneIDs, mesh`boneWeights
    ensures mesh.Skin() == AddWeights(old(mesh.Skin()), boneId, weights)
    ensures mesh.Bones() == old(mesh.Bones())
  {
    ghost var skin0 := mesh.Skin();
    var w := 0;
    while w < |weights|
      invariant 0 <= w <= |weights|
      invariant mesh.Skin() == AddWeights(skin0, boneId, weights[..w])
    {
      var vw := weights[w];
      assert weights[..w + 1][..w] == weights[..w];
      AddInfluence(mesh, vw.vertexId, boneId, vw.weight);
      w := w + 1;
    }
    assert weights[..w] == weights;
  }

  /** The bone loop: every bone is looked up in the registry, then each of
      its (vertex, weight) pairs goes to that vertex's assigner. */
  method ProcessBones(src: ImportedMesh, mesh: Mesh)
    requires Valid(mesh.Bones()) && mesh.Skin().Shaped()
    requires BonesInRange(src.bones, |mesh.boneIDs|)
    modifies mesh`boneInfoMap, mesh`boneCounter, mesh`boneIDs, mesh`boneWeights
    ensures mesh.Bones() == RegisterAll(old(mesh.Bones()), src.bones)
    ensures mesh.Skin() == AddBones(old(mesh.Bones()), old(mesh.Skin()), src.bones)
    ensures mesh.Data() == old(mesh.Data()).(boneIDs := mesh.boneIDs, boneWeights := mesh.boneWeights,
      boneInfo := mesh.boneInfoMap, boneCounter := mesh.boneCounter)
  {
    ghost var reg0 := mesh.Bones();
    ghost var skin0 := mesh.Skin();
    var b := 0;
    while b < |src.bones|
      invariant 0 <= b <= |src.bones|
      invariant BonesInRange(src.bones[..b], |skin0.boneIDs|)
      invariant mesh.Bones() == RegisterAll(reg0, src.bones[..b])
      invariant Valid(mesh.Bones())
      invariant mesh.Skin() == AddBones(reg0, skin0, src.bones[..b])
    {
      assert src.bones[..b + 1][..b] == src.bones[..b];
      assert BonesInRange(src.bones[..b + 1], |skin0.boneIDs|);
      ProcessBone(src.bones, b, reg0, skin0, mesh);
      b := b + 1;
    }
    assert src.bones[..b] == src.bones;
  }

  /** One pass of the bone loop, seen against the whole loop: bone `b` is
      looked up and its pairs assigned, which extends the registry and the
      skinning arrays by exactly that bone. */
  method ProcessBone(bones: seq<Bone>, b: nat, ghost reg0: Registry, ghost skin0: Skin, mesh: Mesh)
    requires b < |bones| && skin0.Shaped()
    requires BonesInRange(bones[..b], |skin0.boneIDs|) && BonesInRange(bones[..b + 1], |skin0.boneIDs|)
    requires mesh.Bones() == RegisterAll(reg0, bones[..b]) && Valid(mesh.Bones())
    requires mesh.Skin() == AddBones(reg0, skin0, bones[..b])
    modifies mesh`boneInfoMap, mesh`boneCounter, mesh`boneIDs, mesh`boneWeights
    ensures mesh.Bones() == RegisterAll(reg0, bones[..b + 1]) && Valid(mesh.Bones())
    ensures mesh.Skin() == AddBones(reg0, skin0, bones[..b + 1])
  {
    var bone := bones[b];
    assert bones[..b + 1][..b] == bones[..b];
    var boneId := RegisterBone(mesh, bone.name, bone.offset);
    AssignWeights(mesh, boneId, bone.weights);
  }

  /** The mesh translator: fills `mesh` from the imported mesh. Afterwards
      the mesh holds exactly `Translate` of its old data, and stays valid. */
  method ProcessMesh(src: ImportedMesh, scene: ImportedScene, mesh: Mesh)
    requires src.Valid() && src.materialIndex < |scene.materials|
    requires mesh.Valid()
    modifies mesh
    ensures mesh.Valid()
    ensures mesh.Data() == Translate(old(mesh.Data()), src, scene.materials[src.materialIndex])
  {
    ghost var m0 := mesh.Data();
    ghost var r := Translate(m0, src, scene.materials[src.materialIndex]);
    TranslateKeepsValid(m0, src, scene.materials[src.materialIndex]);
    CopyVertices(src, mesh);
    CopyIndices(src, mesh);
    ghost var m1 := mesh.Data();
    assert mesh.Skin() == WithFreeSlots(m0, |src.positions|);
    ProcessBones(src, mesh);
    assert mesh.Skin() == r.Skin() && mesh.Bones() == r.Bones();
    ghost var m2 := mesh.Data();
    assert m2 == r.(textures := m0.textures);
    var material := scene.materials[src.materialIndex];
    TexturesFromMaterial(material, Diffuse, mesh);
  }

  // ---------------------------------------------------------------------
  // Scene walk
  // ---------------------------------------------------------------------

  /** What mesh `i` of a scene becomes when translated into a new, empty
      engine mesh with its own material. The fallback to the empty mesh is
      never reached for a scene satisfying `MeshesValid`. */
  ghost function TranslationOf(scene: ImportedScene, i: nat): MeshData
    requires i < |scene.meshes|
  {
    var src := scene.meshes[i];
    if src.Valid() && src.materialIndex < |scene.materials|
    then Translate(EmptyMesh, src, scene.materials[src.materialIndex])
    else EmptyMesh
  }

  /** The translation of every mesh of a scene, by mesh index. */
  ghost function Translations(scene: ImportedScene): (r: seq<MeshData>)
    ensures |r| == |scene.meshes|
    ensures forall i :: 0 <= i < |r| ==> r[i] == TranslationOf(scene, i)
  {
    seq(|scene.meshes|, i requires 0 <= i < |scene.meshes| => TranslationOf(scene, i))
  }

  /** `translated` lists the translation of every mesh of `scene`. The
      trigger keeps the solver from expanding a translation until a proof
      names one. */
  ghost predicate Tabulates(translated: seq<MeshData>, scene: ImportedScene) {
    && |translated| == |scene.meshes|
    && forall i {:trigger TranslationOf(scene, i)} :: 0 <= i < |translated| ==> translated[i] == TranslationOf(scene, i)
  }

  /** Entity `e` is the one the walk makes for `ref`: it carries the ref's
      name, hangs under `parent`, and owns a mesh component holding
      `translated[ref.mesh]`, the translation of the mesh it refers to. */
  ghost predicate Made(e: Entity, ref: MeshRef, parent: EntityId, translated: seq<MeshData>)
    reads if e.mesh.Some? then {e.mesh.value} else {}
  {
    && e.name == ref.name
    && e.parent == Some(parent)
    && e.mesh.Some?
    && ref.mesh < |translated|
    && e.mesh.value.Data() == translated[ref.mesh]
  }

  /** The mesh components of `es`. */
  ghost function MeshesOf(es: seq<Entity>): set<Mesh> {
    set k | 0 <= k < |es| && es[k].mesh.Some? :: es[k].mesh.value
  }

  /** `es` are, one for one, the entities the walk makes for `refs`. */
  ghost predicate AllMade(es: seq<Entity>, refs: seq<MeshRef>, parent: EntityId, translated: seq<MeshData>)
    reads MeshesOf(es)
  {
    && |es| == |refs|
    && forall k :: 0 <= k < |es| ==> Made(es[k], refs[k], parent, translated)
  }

  lemma AllMadeAppend(es: seq<Entity>, refs: seq<MeshRef>, es': seq<Entity>, refs': seq<MeshRef>,
                      parent: EntityId, translated: seq<MeshData>)
    requires AllMade(es, refs, parent, translated) && AllMade(es', refs', parent, translated)
    ensures AllMade(es + es', refs + refs', parent, translated)
  {
    forall k | 0 <= k < |es + es'|
      ensures Made((es + es')[k], (refs + refs')[k], parent, translated)
    {
      if k >= |es| {
        assert Made(es'[k - |es|], refs'[k - |es|], parent, translated);
      } else {
        assert Made(es[k], refs[k], parent, translated);
      }
    }
  }

  /** When entities are only appended, the ones made since `start` stay
      made and the appended ones follow them. */
  lemma AllMadeExtend(before: seq<Entity>, after: seq<Entity>, start: nat, done: seq<MeshRef>, more: seq<MeshRef>,
                      parent: EntityId, translated: seq<MeshData>)
    requires start <= |before| <= |after| && after[..|before|] == before
    requires AllMade(before[start..], done, parent, translated)
    requires AllMade(after[|before|..], more, parent, translated)
    ensures AllMade(after[start..], done + more, parent, translated)
  {
    assert after[start..] == before[start..] + after[|before|..];
    AllMadeAppend(before[start..], done, after[|before|..], more, parent, translated);
  }

  /** The entities of `es` from index `start` on own pairwise different mesh
      components: no two of them share one. */
  ghost predicate Distinct(es: seq<Entity>, start: nat) {
    forall j, k :: start <= j < k < |es| && es[j].mesh.Some? && es[k].mesh.Some? ==> es[j].mesh.value != es[k].mesh.value
  }

  /** Appending entities whose components differ from each other and from
      those already there keeps the components distinct. */
  lemma DistinctExtend(before: seq<Entity>, after: seq<Entity>, start: nat)
    requires start <= |before| <= |after| && after[..|before|] == before
    requires Distinct(before, start) && Distinct(after, |before|)
    requires forall j, k :: start <= j < |before| <= k < |after| && before[j].mesh.Some? && after[k].mesh.Some? ==>
               before[j].mesh.value != after[k].mesh.value
    ensures Distinct(after, start)
  {
    forall j, k | start <= j < k < |after| && after[j].mesh.Some? && after[k].mesh.Some?
      ensures after[j].mesh.value != after[k].mesh.value
    {
      if k < |before| {
        assert after[j] == before[j] && after[k] == before[k];
      } else if j < |before| {
        assert after[j] == before[j];
      }
    }
  }

  /** A mesh the walk makes for a scene holds the translation of the mesh it
      refers to into an empty mesh, and is a valid engine mesh. */
  lemma MadeValid(e: Entity, ref: MeshRef, parent: EntityId, scene: ImportedScene)
    requires scene.MeshesValid() && Made(e, ref, parent, Translations(scene))
    ensures var src := scene.meshes[ref.mesh];
      && src.materialIndex < |scene.materials|
      && e.mesh.value.Data() == Translate(EmptyMesh, src, scene.materials[src.materialIndex])
      && e.mesh.value.Valid()
  {
    var src := scene.meshes[ref.mesh];
    TranslateFresh(src, scene.materials[src.materialIndex]);
  }

  /** One pass of the scene walk's mesh loop: create an entity named `name`
      under `parent`, give it a mesh component and translate mesh
      `meshIndex` of the scene into it. */
  method AddMeshEntity(name: string, meshIndex: nat, scene: ImportedScene, parent: EntityId, world: Scene,
                       ghost translated: seq<MeshData>)
    requires scene.MeshesValid() && meshIndex < |scene.meshes|
    requires Tabulates(translated, scene)
    requires parent < |world.entities|
    modifies world
    ensures |world.entities| == |old(world.entities)| + 1
    ensures world.entities[..|old(world.entities)|] == old(world.entities)
    ensures AllMade(world.entities[|old(world.entities)|..], [MeshRef(name, meshIndex)], parent, translated)
    ensures world.entities[|old(world.entities)|].mesh.Some? && fresh(world.entities[|old(world.entities)|].mesh.value)
  {
    var src := scene.meshes[meshIndex];
    var id := world.CreateGameObject(name, Some(parent));
    var mesh := world.AddMeshComponent(id);
    ProcessMesh(src, scene, mesh);
    assert translated[meshIndex] == TranslationOf(scene, meshIndex);
    assert world.entities[id..] == [world.entities[id]];
  }

  /** The scene walk's mesh loop: one entity per mesh reference of `node`,
      in index order, all under `parent`, each with a new mesh component of
      its own. */
  method ProcessOwnMeshes(node: Node, scene: ImportedScene, parent: EntityId, world: Scene,
                          ghost translated: seq<MeshData>)
    requires scene.MeshesValid() && forall i :: 0 <= i < |node.meshes| ==> node.meshes[i] < |scene.meshes|
    requires Tabulates(translated, scene)
    requires parent < |world.entities|
    modifies world
    ensures |world.entities| == |old(world.entities)| + |node.meshes|
    ensures world.entities[..|old(world.entities)|] == old(world.entities)
    ensures AllMade(world.entities[|old(world.entities)|..], OwnRefs(node), parent, translated)
    ensures forall k :: |old(world.entities)| <= k < |world.entities| ==>
              world.entities[k].mesh.Some? && fresh(world.entities[k].mesh.value)
    ensures Distinct(world.entities, |old(world.entities)|)
  {
    ghost var start := |world.entities|;
    var i := 0;
    while i < |node.meshes|
      invariant 0 <= i <= |node.meshes|
      invariant |world.entities| == start + i
      invariant world.entities[..start] == old(world.entities)
      invariant AllMade(world.entities[start..], OwnRefs(node)[..i], parent, translated)
      invariant forall k :: start <= k < |world.entities| ==>
                  world.entities[k].mesh.Some? && fresh(world.entities[k].mesh.value)
      invariant Distinct(world.entities, start)
    {
      ProcessOwnMesh(node, i, scene, parent, world, translated, start);
      i := i + 1;
    }
    assert OwnRefs(node)[..i] == OwnRefs(node);
  }

  /** One pass of the scene walk's mesh loop: make the entity for mesh
      reference `i` of `node`; the entities made since `start` for the
      first `i` references stay made and the new one follows them. */
  method ProcessOwnMesh(node: Node, i: nat, scene: ImportedScene, parent: EntityId, world: Scene,
                        ghost translated: seq<MeshData>, ghost start: nat)
    requires i < |node.meshes|
    requires scene.MeshesValid() && node.meshes[i] < |scene.meshes|
    requires Tabulates(translated, scene)
    requires parent < start <= |world.entities|
    requires AllMade(world.entities[start..], OwnRefs(node)[..i], parent, translated)
    requires Distinct(world.entities, start)
    modifies world
    ensures |world.entities| == |old(world.entities)| + 1
    ensures world.entities[..|old(world.entities)|] == old(world.entities)
    ensures AllMade(world.entities[start..], OwnRefs(node)[..i + 1], parent, translated)
    ensures world.entities[|old(world.entities)|].mesh.Some? && fresh(world.entities[|old(world.entities)|].mesh.value)
    ensures Distinct(world.entities, start)
  {
    ghost var before := world.entities;
    AddMeshEntity(EntityName(node.name), node.meshes[i], scene, parent, world, translated);
    assert AllMade(before[start..], OwnRefs(node)[..i], parent, translated);
    DistinctExtend(before, world.entities, start);
    AllMadeExtend(before, world.entities, start, OwnRefs(node)[..i], [OwnRefs(node)[i]], parent, translated);
    assert OwnRefs(node)[..i + 1] == OwnRefs(node)[..i] + [OwnRefs(node)[i]];
  }

  /** The scene walk. It appends one entity per mesh reference of the
      subtree, depth first, a node's own meshes before its children; every
      one of them hangs under the same `parent`, so the source hierarchy is
      flattened. Entities that existed before are left as they were. */
  method ProcessNode(node: Node, scene: ImportedScene, parent: EntityId, world: Scene,
                     ghost translated: seq<MeshData>)
    requires scene.MeshesValid() && RefsValid(node, |scene.meshes|)
    requires Tabulates(translated, scene)
    requires parent < |world.entities|
    modifies world
    ensures |world.entities| == |old(world.entities)| + |Walk(node)|
    ensures world.entities[..|old(world.entities)|] == old(world.entities)
    ensures AllMade(world.entities[|old(world.entities)|..], Walk(node), parent, translated)
    ensures forall k :: |old(world.entities)| <= k < |world.entities| ==>
              world.entities[k].mesh.Some? && fresh(world.entities[k].mesh.value)
    ensures Distinct(world.entities, |old(world.entities)|)
    decreases node, 1
  {
    ghost var start := |world.entities|;
    ProcessOwnMeshes(node, scene, parent, world, translated);
    var c := 0;
    while c < |node.children|
      invariant 0 <= c <= |node.children|
      invariant start <= |world.entities|
      invariant world.entities[..start] == old(world.entities)
      invariant AllMade(world.entities[start..], OwnRefs(node) + WalkAll(node.children[..c]), parent, translated)
      invariant forall k :: start <= k < |world.entities| ==>
                  world.entities[k].mesh.Some? && fresh(world.entities[k].mesh.value)
      invariant Distinct(world.entities, start)
    {
      ProcessChild(node, c, scene, parent, world, translated, start);
      c := c + 1;
    }
    assert node.children[..c] == node.children;
  }

  /** One pass of the scene walk's child loop: walk child `c` of `node`
      under the same parent; the entities made since `start` for the node's
      own meshes and its first `c` children stay made and the child's
      follow them. */
  method ProcessChild(node: Node, c: nat, scene: ImportedScene, parent: EntityId, world: Scene,
                      ghost translated: seq<MeshData>, ghost start: nat)
    requires c < |node.children|
    requires scene.MeshesValid() && RefsValid(node, |scene.meshes|)
    requires Tabulates(translated, scene)
    requires parent < start <= |world.entities|
    requires AllMade(world.entities[start..], OwnRefs(node) + WalkAll(node.children[..c]), parent, translated)
    requires Distinct(world.entities, start)
    modifies world
    ensures |old(world.entities)| <= |world.entities|
    ensures world.entities[..|old(world.entities)|] == old(world.entities)
    ensures AllMade(world.entities[start..], OwnRefs(node) + WalkAll(node.children[..c + 1]), parent, translated)
    ensures forall k :: |old(world.entities)| <= k < |world.entities| ==>
              world.entities[k].mesh.Some? && fresh(world.entities[k].mesh.value)
    ensures Distinct(world.entities, start)
    decreases node, 0
  {
    ghost var before := world.entities;
    ghost var done := OwnRefs(node) + WalkAll(node.children[..c]);
    ProcessNode(node.children[c], scene, parent, world, translated);
    assert AllMade(before[start..], done, parent, translated);
    DistinctExtend(before, world.entities, start);
    AllMadeExtend(before, world.entities, start, done, Walk(node.children[c]), parent, translated);
    WalkPrefixSnoc(node, c);
  }

  // ---------------------------------------------------------------------
  // Entry points
  // ---------------------------------------------------------------------

  /** Load a model as a new top-level entity of `world`, named `fileName`
      (the file-name part of the path). `decoded` is the decoder's answer.
      On success the model entity is followed by one entity per mesh
      reference of the scene tree, all children of the model entity. */
  method LoadModelAsRoot(fileName: string, decoded: Option<ImportedScene>, world: Scene)
    returns (model: Option<EntityId>)
    requires !DecodeFailed(decoded) ==> decoded.value.MeshesValid()
    requires !DecodeFailed(decoded) ==> RefsValid(decoded.value.root.value, |decoded.value.meshes|)
    modifies world
    ensures model.None? <==> DecodeFailed(decoded)
    ensures model.None? ==> world.entities == old(world.entities)
    ensures model.Some? ==>
      var scene := decoded.value;
      && model.value == |old(world.entities)|
      && |world.entities| == |old(world.entities)| + 1 + |Walk(scene.root.value)|
      && world.entities[..model.value + 1] == old(world.entities) + [Entity(fileName, None, None)]
      && AllMade(world.entities[model.value + 1..], Walk(scene.root.value), model.value,
                 Translations(scene))
      && (forall k :: model.value < k < |world.entities| ==>
            world.entities[k].mesh.Some? && fresh(world.entities[k].mesh.value))
      && Distinct(world.entities, model.value + 1)
  {
    if DecodeFailed(decoded) {
      return None;
    }
    var scene := decoded.value;
    var id := world.CreateGameObject(fileName, None);
    ProcessNode(scene.root.value, scene, id, world, Translations(scene));
    model := Some(id);
  }

  /** Load a model as a new child entity of `parent`, named after the last
      component of `path`. `decoded` is the decoder's answer. */
  method LoadModelAsChild(path: string, decoded: Option<ImportedScene>, parent: EntityId, world: Scene)
    returns (model: Option<EntityId>)
    requires |path| < NPOS && parent < |world.entities|
    requires !DecodeFailed(decoded) ==> decoded.value.MeshesValid()
    requires !DecodeFailed(decoded) ==> RefsValid(decoded.value.root.value, |decoded.value.meshes|)
    modifies world
    ensures model.None? <==> DecodeFailed(decoded)
    ensures model.None? ==> world.entities == old(world.entities)
    ensures model.Some? ==>
      var scene := decoded.value;
      && model.value == |old(world.entities)|
      && |world.entities| == |old(world.entities)| + 1 + |Walk(scene.root.value)|
      && world.entities[..model.value + 1] == old(world.entities) + [Entity(BaseName(path), Some(parent), None)]
      && AllMade(world.entities[model.value + 1..], Walk(scene.root.value), model.value,
                 Translations(scene))
      && (forall k :: model.value < k < |world.entities| ==>
            world.entities[k].mesh.Some? && fresh(world.entities[k].mesh.value))
      && Distinct(world.entities, model.value + 1)
  {
    if DecodeFailed(decoded) {
      return None;
    }
    var scene := decoded.value;
    var id := world.CreateGameObject(BaseName(path), Some(parent));
    ProcessNode(scene.root.value, scene, id, world, Translations(scene));
    model := Some(id);
  }
}
