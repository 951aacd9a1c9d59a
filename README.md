# PetrolEngine model loader, in Dafny

This project models PetrolEngine's Assimp-based model loader, found in
`src/Assimp/modelLoader.cpp`. The loader takes a decoded `aiScene` and
turns it into engine entities:

- **Load entry points.** A model is loaded either as a new top-level
  entity of a scene, named after the file, or as a child of an existing
  entity, named after the last path component. A decode failure returns no
  entity.
- **Scene walk.** The node tree is walked depth first. For every mesh
  reference of a node, it creates one entity under the model entity and
  attaches a new mesh component to it. The entity is named after the node,
  or "New node" when the node has no name.
- **Mesh translator.** It fills that component with the following:
  - vertex positions, normals and the first UV channel;
  - the flattened face indices;
  - a per-mesh bone registry (name → id and offset; a new name gets the
    next counter value);
  - a fixed four-slot (bone id, weight) assignment per vertex. Each pair
    goes into the first free slot. A pair that finds no free slot is
    dropped silently.
  - the diffuse textures of the mesh's material.

Modules, one file each:

- `Imported` (`imported.dfy`): the decoded scene as values. This is the
  decoder's output, handed to the loader as a parameter.
- `Influences` (`influences.dfy`): the four-slot assigner as a function on
  one vertex's slots. It has a reference definition (`FirstFour`) and the
  lemmas that connect the two.
- `BoneRegistry` (`bone_registry.dfy`): the name → (id, offset) registry
  and its invariant.
- `Skinning` (`skinning.dfy`): the bone loop of one mesh as a fold over its
  bones. It also characterises each vertex by the pairs aimed at it.
- `MeshSpec` (`mesh_spec.dfy`): a mesh component's state as a value
  (`MeshData`), and `Translate`, what the translator does to it.
- `Engine` (`engine.dfy`): the engine objects the loader writes.
  - `Mesh` is a class whose fields the translator updates in place.
  - `Scene` records every entity it creates.
  - An entity is named by its creation index.
- `SceneWalk` (`scene_walk.dfy`): the order in which the walk creates
  entities, as a function of the node tree.
- `ModelLoader` (`model_loader.dfy`): the loader's loops as methods. Each
  one is proved against the functions above.

The central results:

- **`ModelLoader.ProcessMesh`.** After the translator runs, the mesh
  component's state is exactly `Translate` of its old state, taking
  `recalculateMesh` to leave the tracked fields alone. The component
  stays valid: slots are well formed, the registry is consistent, and every
  slot id is one the registry handed out.
- **`MeshSpec.TranslateFresh` and `MeshSpec.TranslateFreshSlots`.** A
  freshly added component gets the following:
  - the source's positions, normals, UVs and indices;
  - at each vertex, exactly the first four (bone, weight) pairs aimed at
    it, in bone order and with unchanged weights;
  - at a vertex no bone names, ids -1 and weights 0.
- **`LoadModelAsRoot` and `LoadModelAsChild`.** Each returns an entity
  exactly when decoding succeeded, and changes nothing otherwise. On
  success:
  - the new model entity comes first;
  - then comes exactly one entity per mesh reference in walk order, each
    parented to the model entity;
  - each of those entities holds the translation of the mesh it names, in
    a mesh component created by this load and shared with no other entity.

## Model

| member | source | states |
|---|---|---|
| ModelLoader.DecodeFailed | src/Assimp/modelLoader.cpp:41-41 | Succeeds exactly for a present scene with a root node whose incomplete flag (bit 0x1) is clear; every other flag bit is ignored |
| ModelLoader.FindLastSeparator | src/Assimp/modelLoader.cpp:74-74 | Gives either npos or the index of a '/' or '\\'; no separator comes after it; npos exactly when the path holds no separator |
| ModelLoader.BaseNameSpec | src/Assimp/modelLoader.cpp:72-74 | The child entity's name is a suffix of the path and holds no separator; when shorter than the path, a separator precedes it; a path with no separator is its own name (npos + 1 wraps to 0) |
| ModelLoader.TexturesFromMaterial | src/Assimp/modelLoader.cpp:84-94 | Appends one texture handle per texture path of the given type, in the material's order; the rest of the mesh is unchanged |
| ModelLoader.RegisterBone | src/Assimp/modelLoader.cpp:170-185 | The registry lookup matches `Register`: a known name returns its stored id; a new name gets the counter, stores its offset and increments the counter; the registry stays valid and the id is never -1 |
| ModelLoader.AddInfluence | src/Assimp/modelLoader.cpp:194-200 | The four-slot scan on one vertex equals `Place`: the pair goes into the first slot whose id is negative, or is dropped when none is free; other vertices are unchanged |
| ModelLoader.CopyVertex | src/Assimp/modelLoader.cpp:108-140 | One vertex pass: pushes a free slot entry into both skinning arrays and the position to the vertices; when present, appends a default normal/UV and overwrites entry i with the source's |
| ModelLoader.CopyVertices | src/Assimp/modelLoader.cpp:100-158 | After the vertex loop the vertices are the source positions; normals and UVs follow the append-then-write-at-i pattern (`CopyIndexed`), and are untouched when the source lacks them; one free entry per vertex is appended to each skinning array |
| ModelLoader.CopyIndices | src/Assimp/modelLoader.cpp:101-166 | After the face loop the index list is every face's indices, in face order, and nothing else changes |
| ModelLoader.AssignWeights | src/Assimp/modelLoader.cpp:186-202 | One bone's weight loop equals `AddWeights`: its pairs are placed in order, each into its own vertex's slots |
| ModelLoader.ProcessBone | src/Assimp/modelLoader.cpp:169-202 | One bone-loop pass: bone b is looked up and its pairs assigned, extending `RegisterAll` and `AddBones` over the first b bones to the first b + 1 |
| ModelLoader.ProcessBones | src/Assimp/modelLoader.cpp:168-203 | After the bone loop the registry is `RegisterAll` of the old one over the bones, and the skinning arrays are `AddBones` of the old ones; other fields are unchanged |
| ModelLoader.ProcessMesh | src/Assimp/modelLoader.cpp:96-218 | The translator turns the component's state into `Translate` of its old state, using the mesh's material, and keeps it valid |
| ModelLoader.AllMadeAppend | src/Assimp/modelLoader.cpp:219-232 | Entities made for two runs of the walk, concatenated, are the entities made for the concatenated runs |
| ModelLoader.AllMadeExtend | src/Assimp/modelLoader.cpp:219-232 | When entities are only appended, the entities made so far stay made, and the new ones extend them |
| ModelLoader.MadeValid | src/Assimp/modelLoader.cpp:225-228 | A walk-made entity's mesh is the translation, into an empty component, of the scene mesh it names (whose material index is in range), and it is valid |
| ModelLoader.AddMeshEntity | src/Assimp/modelLoader.cpp:221-228 | One mesh-loop pass appends exactly one entity with the given name and parent, holding a newly allocated mesh component filled with the translation of the referenced mesh; earlier entities are unchanged |
| ModelLoader.ProcessOwnMeshes | src/Assimp/modelLoader.cpp:220-229 | The mesh loop appends one such entity per mesh reference of the node, in index order, each named after the node; every appended entity's component is newly allocated, and no two share one |
| ModelLoader.ProcessOwnMesh | src/Assimp/modelLoader.cpp:221-228 | One mesh-loop pass extends the entities made for the node's first i references by the entity for reference i, whose component is new and differs from the others |
| ModelLoader.ProcessChild | src/Assimp/modelLoader.cpp:230-232 | Walking child c extends the entities made so far by exactly that child's walk, under the same parent |
| ModelLoader.ProcessNode | src/Assimp/modelLoader.cpp:219-233 | The walk of a node appends exactly `Walk(node)`: its own mesh entities, then each child's walk in order; all are parented to the given entity and hold their mesh's translation in newly allocated, pairwise different components; earlier entities are unchanged |
| ModelLoader.LoadModelAsRoot | src/Assimp/modelLoader.cpp:29-59 | Returns no entity exactly when decoding failed, and then adds nothing; otherwise it appends a top-level entity named by the file name, then the walk of the root node, all parented to it, each with a newly allocated component of its own; the scene's consistency is assumed only when the decode check passes |
| ModelLoader.LoadModelAsChild | src/Assimp/modelLoader.cpp:60-83 | As above, but the model entity is a child of the given parent and is named by the path's last component |
| Influences.FirstFree | src/Assimp/modelLoader.cpp:194-195 | The index of the first slot with a negative id: every earlier slot is filled, and that slot (if any) is free |
| Influences.FilledIsFirstFree | src/Assimp/modelLoader.cpp:194-198 | When filled slots form a prefix, the slot the scan picks is the number of filled slots |
| Influences.PlaceSpec | src/Assimp/modelLoader.cpp:194-200 | One placement keeps the slots well formed and never overwrites a filled slot; with a free slot it fills exactly the next one and the count rises by one; with all four full the pair is dropped |
| Influences.FillAllSpec | src/Assimp/modelLoader.cpp:189-202 | Placing a list of pairs keeps the slots well formed, never overwrites a filled slot, and leaves min(4, filled + pairs) slots filled |
| Influences.FillAllAppend | src/Assimp/modelLoader.cpp:168-203 | Placing p and then q is placing p + q |
| Influences.FirstFourSnoc | src/Assimp/modelLoader.cpp:194-200 | Placing one more pair after the first-four slots of a list gives the first-four slots of the longer list |
| Influences.FillFromEmpty | src/Assimp/modelLoader.cpp:109-110 | From free slots, the result is exactly the first four pairs in arrival order, with weights as given (no renormalisation); later pairs are dropped |
| Influences.FilledFromEmpty | src/Assimp/modelLoader.cpp:109-110 | From free slots, min(4, number of pairs) slots end up filled and the slots are well formed |
| BoneRegistry.RegisterSpec | src/Assimp/modelLoader.cpp:172-184 | The returned id is the name's stored id and lies below the counter; a known name leaves the registry unchanged; a new name gets the old counter and its offset, and the counter grows by one |
| BoneRegistry.RegisterKeepsValid | src/Assimp/modelLoader.cpp:172-180 | Registering keeps the counter equal to the number of names and the ids distinct and below the counter; it adds the name and changes no existing entry |
| BoneRegistry.RegisterIdempotent | src/Assimp/modelLoader.cpp:181-184 | Registering a name twice returns the same id and leaves the registry as after the first registration, whatever the second offset |
| BoneRegistry.RegisterAllKeys | src/Assimp/modelLoader.cpp:168-185 | After the bone loop the registry's names are the old names plus the bones' names |
| BoneRegistry.RegisterAllValid | src/Assimp/modelLoader.cpp:168-185 | The bone loop keeps the registry valid |
| BoneRegistry.RegisterAllKeeps | src/Assimp/modelLoader.cpp:172-184 | The bone loop keeps every existing name and never changes its entry |
| BoneRegistry.FreshRegistryCounts | src/Assimp/modelLoader.cpp:175-179 | From an empty registry the counter ends at the number of distinct bone names, and the ids are below it |
| Skinning.IncomingLength | src/Assimp/modelLoader.cpp:186-191 | As many pairs reach a vertex as there are weight entries naming it |
| Skinning.IncomingIds | src/Assimp/modelLoader.cpp:183-197 | Every pair reaching a vertex carries one of the registry's ids |
| Skinning.IncomingStable | src/Assimp/modelLoader.cpp:172-184 | The pairs reaching a vertex depend only on the ids of the names met |
| Skinning.AddWeightsAt | src/Assimp/modelLoader.cpp:189-202 | After one bone's weight loop, vertex v holds its old slots filled with exactly the pairs naming v, in order |
| Skinning.AddBonesAt | src/Assimp/modelLoader.cpp:168-203 | After the whole bone loop, vertex v holds its old slots filled with every pair aimed at it, in processing order, under the final registry's ids |
| Skinning.FromFreshSlots | src/Assimp/modelLoader.cpp:109-203 | From free slots, each vertex keeps the first four pairs aimed at it; min(4, count) slots are filled, and each id is -1 or a registry id |
| MeshSpec.CopyIndexedAt | src/Assimp/modelLoader.cpp:120-140 | Entry k of a copied normal/UV list is the source's below the source length, the old entry up to the old length, and a default beyond both |
| MeshSpec.CopyIntoEmpty | src/Assimp/modelLoader.cpp:120-140 | On a list that starts empty, the copy is exactly the source list |
| MeshSpec.Repeat | src/Assimp/modelLoader.cpp:109-110 | n copies of the same free slot entry |
| MeshSpec.FlattenTriangles | src/Assimp/modelLoader.cpp:160-166 | With triangle faces, the index list has three entries per face, and entry 3f+j is corner j of face f |
| MeshSpec.FillAllIdsBelow | src/Assimp/modelLoader.cpp:194-198 | The assigner only writes ids it is given, so ids stay below the registry counter |
| MeshSpec.CounterGrows | src/Assimp/modelLoader.cpp:179-179 | The bone counter never goes down |
| MeshSpec.FreeSlotsAt | src/Assimp/modelLoader.cpp:108-110 | After the vertex loop, each vertex's slots are its old ones or free ones, and are well formed |
| MeshSpec.TranslateSlot | src/Assimp/modelLoader.cpp:168-203 | After translation each vertex has well-formed slots whose ids lie below the new counter |
| MeshSpec.TranslateKeepsValid | src/Assimp/modelLoader.cpp:96-218 | Translation keeps the mesh data valid |
| MeshSpec.TranslateFresh | src/Assimp/modelLoader.cpp:96-218 | A new component gets the source's positions, normals (if any), UVs (if any) and flattened indices; one slot entry per vertex; a registry whose counter is the number of distinct bone names; and the diffuse textures |
| MeshSpec.TranslateFreshSlots | src/Assimp/modelLoader.cpp:168-203 | In a new component, vertex v holds the first four pairs aimed at it, with min(4, count) filled slots; a vertex no bone names keeps ids -1 and weights 0 |
| SceneWalk.EntityName | src/Assimp/modelLoader.cpp:222-222 | A mesh entity's name is never empty: it is the node's name, or "New node" when that name is empty |
| SceneWalk.WalkLength | src/Assimp/modelLoader.cpp:219-233 | The walk creates exactly one entity per mesh reference in the subtree, counted independently |
| SceneWalk.WalkAllLength | src/Assimp/modelLoader.cpp:230-232 | The walk of a list of children creates one entity per mesh reference in those subtrees |
| SceneWalk.MeshCountAllSnoc | src/Assimp/modelLoader.cpp:230-232 | Counting mesh references is the same from the front or from the back |
| SceneWalk.WalkRefsValid | src/Assimp/modelLoader.cpp:221-221 | In a subtree whose references are valid, each created entity names an existing mesh and has a non-empty name |
| Engine.Mesh.constructor | src/Assimp/modelLoader.cpp:226-226 | A new mesh component holds no data and an empty bone registry with counter 0 |
| Engine.Scene.CreateGameObject | src/Assimp/modelLoader.cpp:225-225 | Appends one entity with the given name and parent, and returns its index |
| Engine.Scene.AddMeshComponent | src/Assimp/modelLoader.cpp:226-226 | Attaches a new, empty, valid mesh component to the entity and changes nothing else |

## Left out

- **The Assimp decoder.** `Importer::ReadFile` (lines 38-39, 62-63) and its
  post-processing flags are not part of this model. The decoder's answer is a
  parameter of the entry points. When the decoder's answer passes the check
  at lines 41 and 65, the entry points assume that it is a consistent scene:
  - mesh references and weight vertex ids are in range;
  - material indices are valid;
  - normal and UV arrays have one entry per vertex.

  On that path the source relies on the same facts without checking them. A
  scene that fails the check (for example one carrying the incomplete flag,
  which skips some of the decoder's validation) is not read, and no
  assumption is made about it.
- **The working directory.** `LoadModelAsRoot` does not model the change of
  working directory (lines 30-36, 56). Note that the early return at line 43
  leaves the working directory changed.
- **The root model's name.** `LoadModelAsRoot` takes the root model's name
  as a parameter. `std::filesystem::path::filename` (line 33) is not
  modelled.
- **Logging.** `LOG` calls (lines 42, 46, 66, 70) are not modelled.
- **`recalculateMesh`** (line 206) is engine code that is not part of this
  model. `ModelLoader.ProcessMesh` and the entry points take it to change
  none of the fields the model tracks: vertices, normals, texture
  coordinates, indices, the skinning arrays, the bone registry and the
  textures. Their "exactly `Translate`" results hold under that assumption.
- **Shader assignment.** The shader assigned to the mesh renderer (line 106)
  is not modelled.
- **Offset conversion.** `AssimpGLMHelpers::ConvertMatrixToGLMFormat`
  (line 176) is not part of this model. `ModelLoader.RegisterBone` stores
  the offset matrix as given.
- **Textures.** `ModelLoader.TexturesFromMaterial` models
  `Image::create` and `Renderer::createTexture` (lines 90-91) as a texture
  handle recording its source path. Image decoding and GPU upload are not
  modelled.
- **The singleton and its mutex** (lines 24-27) are not modelled. The model
  is sequential.
- **Numbers.** Floats are modelled as reals. A default-constructed vector is
  taken to be zero.
- **`ModelLoader.RegisterBone`** does not model overflow of the `int` bone
  counter.
- **The debug assertion** `vertexId <= vertices.size()` (line 193) is not
  relied on. The model requires vertex ids below the vertex count instead.
- **`ModelLoader.LoadModelAsChild`** requires the path to be shorter than
  `npos`, taking `size_t` as 64 bits.
- **Tangents and bitangents.** The commented-out tangent/bitangent copy and
  the other texture types (lines 141-157, 214-216) are not modelled.
- SceneWalk.EntityName: node names, bone names and paths are taken as
  strings with no embedded NUL, compared and searched character by
  character. The source passes them as C strings (`C_Str()` at lines 171
  and 222, `std::string fileName(_path)` at line 72), which end at the
  first NUL. So a node whose recorded name length is not 0 but whose first
  byte is NUL gets an entity with an empty name in the source. The model
  keeps the full name, and "never empty" holds only under this assumption.
- BoneRegistry.RegisterSpec: under the same assumption, two bone names
  that agree up to an embedded NUL share one registry entry in the source
  (lines 171-172), but get two entries in the model.
- ModelLoader.FindLastSeparator: `find_last_of` (line 74) searches bytes.
  The model's search over characters agrees with it for ASCII and UTF-8
  paths only.
- Engine.Mesh.constructor: the entity-component system (`createGameObject`,
  `addComponent<Mesh>`, `getScene`, the `Mesh` class and its mesh renderer)
  is not part of this model. The model assumes the following, and
  `TranslateFresh`, `TranslateFreshSlots`, `MadeValid` and the entry points'
  results depend on it:
  - a mesh component added at line 226 starts with empty vertex, normal,
    UV, index and skinning lists, an empty bone map, a bone counter of 0 and
    an empty texture list on its material;
  - `parent->getScene()` at line 224 is the scene the model entity was
    created in, i.e. the `Scene` passed to the entry point.
