/** What translating one imported mesh does to the engine's mesh data, as a
    function of the mesh data before and the imported mesh. */
module MeshSpec {
  import opened Imported
  import opened Influences
  import opened BoneRegistry
  import opened Skinning

  /** A texture handle the renderer made from the image loaded from `source`. */
  datatype Texture = Texture(source: string)

  /** The value a default-constructed vector is taken to hold. */
  const Zero3: Vec3 := Vec3(0.0, 0.0, 0.0)
  const Zero2: Vec2 := Vec2(0.0, 0.0)

  /** The CPU-side state of an engine mesh: vertex positions, normals, UVs,
      the flattened index list, the skinning arrays, the bone registry and the
      diffuse textures of its material. */
  datatype MeshData = MeshData(
    vertices: seq<Vec3>,
    normals: seq<Vec3>,
    textureCoordinates: seq<Vec2>,
    indices: seq<nat>,
    boneIDs: seq<seq<int>>,
    boneWeights: seq<seq<real>>,
    boneInfo: map<string, BoneInfo>,
    boneCounter: int,
    textures: seq<Texture>)
  {
    function Skin(): Skin { Skinning.Skin(boneIDs, boneWeights) }
    function Bones(): Registry { Registry(boneInfo, boneCounter) }

    /** The skinning arrays hold well-formed slots whose ids the registry
        handed out, and the registry is valid. */
    ghost predicate Valid() {
      && Skin().AllWellFormed()
      && BoneRegistry.Valid(Bones())
      && forall v, k :: 0 <= v < |boneIDs| && 0 <= k < MaxInfluences ==> boneIDs[v][k] < boneCounter
    }
  }

  /** The state of a newly added mesh component. */
  const EmptyMesh: MeshData := MeshData([], [], [], [], [], [], map[], 0, [])

  /** The translator's pattern for normals and UVs: for each i it appends a
      default value and then writes position i counted from the FRONT of the
      list. On an empty list this copies `src`; on a non-empty one it
      overwrites the first entries and leaves defaults at the end. */
  function CopyIndexed<T>(before: seq<T>, src: seq<T>, default: T): (r: seq<T>)
    ensures |r| == |before| + |src|
    decreases |src|
  {
    if src == [] then before
    else
      var n := |src| - 1;
      (CopyIndexed(before, src[..n], default) + [default])[n := src[n]]
  }

  /** The first two components of each vector of a UV channel. */
  function UvOf(channel: seq<Vec3>): (r: seq<Vec2>)
    ensures |r| == |channel|
    ensures forall k :: 0 <= k < |r| ==> r[k] == Vec2(channel[k].x, channel[k].y)
  {
    seq(|channel|, k requires 0 <= k < |channel| => Vec2(channel[k].x, channel[k].y))
  }

  /** Every face's index list, in face order, concatenated. */
  function FlattenFaces(faces: seq<Face>): seq<nat>
    decreases |faces|
  {
    if faces == [] then [] else FlattenFaces(faces[..|faces| - 1]) + faces[|faces| - 1].indices
  }

  /** One handle per texture path, in order. */
  function LoadTextures(paths: seq<string>): (r: seq<Texture>)
    ensures |r| == |paths|
    ensures forall i :: 0 <= i < |r| ==> r[i] == Texture(paths[i])
  {
    seq(|paths|, i requires 0 <= i < |paths| => Texture(paths[i]))
  }

  /** The skinning arrays after the vertex loop: one free entry per vertex
      appended to each array. */
  function WithFreeSlots(m: MeshData, n: nat): Skin {
    Skin(m.boneIDs + Repeat(Empty.ids, n), m.boneWeights + Repeat(Empty.weights, n))
  }

  /** `n` copies of `x`. */
  function Repeat<T>(x: T, n: nat): (r: seq<T>)
    ensures |r| == n && forall k :: 0 <= k < n ==> r[k] == x
  {
    if n == 0 then [] else Repeat(x, n - 1) + [x]
  }

  /** The mesh data after the translator has run on `src` with `material`. */
  function Translate(m: MeshData, src: ImportedMesh, material: Material): MeshData
    requires m.Skin().Shaped() && src.Valid()
  {
    var n := |src.positions|;
    var skin0 := WithFreeSlots(m, n);
    assert skin0.Shaped() && BonesInRange(src.bones, |skin0.boneIDs|);
    var skin := AddBones(m.Bones(), skin0, src.bones);
    var reg := RegisterAll(m.Bones(), src.bones);
    MeshData(
      vertices := src.positions,
      normals := if src.HasNormals() then CopyIndexed(m.normals, src.normals.value, Zero3) else m.normals,
      textureCoordinates :=
        if src.uv0.Some? then CopyIndexed(m.textureCoordinates, UvOf(src.uv0.value), Zero2)
        else m.textureCoordinates,
      indices := FlattenFaces(src.faces),
      boneIDs := skin.boneIDs,
      boneWeights := skin.boneWeights,
      boneInfo := reg.boneInfo,
      boneCounter := reg.counter,
      textures := m.textures + LoadTextures(material.TexturePaths(Diffuse)))
  }

  /** Entry k of the copied list: the source's entry below |src|, the old
      entry between |src| and the old length, and a default beyond both. */
  lemma {:induction false} CopyIndexedAt<T>(before: seq<T>, src: seq<T>, default: T, k: nat)
    requires k < |before| + |src|
    ensures CopyIndexed(before, src, default)[k]
         == if k < |src| then src[k] else if k < |before| then before[k] else default
    decreases |src|
  {
    if src != [] {
      var n := |src| - 1;
      if k != n && k < |before| + n {
        CopyIndexedAt(before, src[..n], default, k);
      }
    }
  }

  /** One more step of the copy: append the default, then write entry i. */
  lemma CopyIndexedStep<T>(before: seq<T>, src: seq<T>, default: T, i: nat)
    requires i < |src|
    ensures CopyIndexed(before, src[..i + 1], default) == (CopyIndexed(before, src[..i], default) + [default])[i := src[i]]
  {
    assert src[..i + 1][..i] == src[..i];
  }

  /** On a list that starts empty, the copy is exactly the source list. */
  lemma CopyIntoEmpty<T>(src: seq<T>, default: T)
    ensures CopyIndexed([], src, default) == src
  {
    forall k | 0 <= k < |src| ensures CopyIndexed([], src, default)[k] == src[k] {
      CopyIndexedAt([], src, default, k);
    }
  }

  /** With all-triangle faces the index list has three entries per face, and
      entry 3f+j is corner j of face f. */
  lemma {:induction false} FlattenTriangles(faces: seq<Face>)
    requires forall f :: 0 <= f < |faces| ==> |faces[f].indices| == 3
    ensures |FlattenFaces(faces)| == 3 * |faces|
    ensures forall f, j :: 0 <= f < |faces| && 0 <= j < 3 ==> FlattenFaces(faces)[3 * f + j] == faces[f].indices[j]
    decreases |faces|
  {
    if faces != [] {
      var n := |faces| - 1;
      FlattenTriangles(faces[..n]);
      forall f, j | 0 <= f < |faces| && 0 <= j < 3
        ensures FlattenFaces(faces)[3 * f + j] == faces[f].indices[j]
      {
        if f < n {
          assert faces[..n][f] == faces[f];
        }
      }
    }
  }

  /** Every id placed in a vertex's slots is either an id it already held or
      an id of an incoming pair, so ids stay below the registry's counter. */
  lemma {:induction false} FillAllIdsBelow(s: Slots, pairs: seq<Influence>, counter: int)
    requires Sized(s)
    requires forall k :: 0 <= k < MaxInfluences ==> s.ids[k] < counter
    requires forall i :: 0 <= i < |pairs| ==> pairs[i].boneId < counter
    ensures forall k :: 0 <= k < MaxInfluences ==> FillAll(s, pairs).ids[k] < counter
    decreases |pairs|
  {
    if pairs != [] {
      FillAllIdsBelow(s, pairs[..|pairs| - 1], counter);
    }
  }

  /** The counter never goes down. */
  lemma CounterGrows(reg: Registry, bones: seq<Bone>)
    requires Valid(reg)
    ensures reg.counter <= RegisterAll(reg, bones).counter
  {
    RegisterAllValid(reg, bones);
    RegisterAllKeys(reg, bones);
    var r := RegisterAll(reg, bones);
    assert reg.boneInfo.Keys <= r.boneInfo.Keys;
    assert |reg.boneInfo.Keys| <= |r.boneInfo.Keys|;
  }

  /** Vertex v of the arrays after the vertex loop: an old entry or a free one. */
  lemma FreeSlotsAt(m: MeshData, n: nat, v: nat)
    requires m.Valid() && v < |m.boneIDs| + n
    ensures WithFreeSlots(m, n).Shaped()
    ensures WellFormed(WithFreeSlots(m, n).At(v))
    ensures forall k :: 0 <= k < MaxInfluences ==> WithFreeSlots(m, n).At(v).ids[k] < m.boneCounter
  {
    var skin0 := WithFreeSlots(m, n);
    if v >= |m.boneIDs| {
      assert skin0.At(v) == Empty;
    } else {
      assert skin0.At(v) == m.Skin().At(v);
    }
  }

  /** One vertex after translation: well-formed slots whose ids lie below
      the new counter. */
  lemma TranslateSlot(m: MeshData, src: ImportedMesh, material: Material, v: nat)
    requires m.Valid() && src.Valid()
    requires v < |m.boneIDs| + |src.positions|
    ensures var r := Translate(m, src, material);
      && v < |r.boneIDs|
      && WellFormed(r.Skin().At(v))
      && forall k :: 0 <= k < MaxInfluences ==> r.boneIDs[v][k] < r.boneCounter
  {
    var skin0 := WithFreeSlots(m, |src.positions|);
    FreeSlotsAt(m, |src.positions|, v);
    assert BonesInRange(src.bones, |skin0.boneIDs|);
    var reg := RegisterAll(m.Bones(), src.bones);
    CounterGrows(m.Bones(), src.bones);
    RegisterAllValid(m.Bones(), src.bones);
    AddBonesAt(m.Bones(), skin0, src.bones, v);
    var pairs := Incoming(reg.boneInfo, src.bones, v);
    IncomingIds(reg.boneInfo, src.bones, v, reg.counter);
    FillAllSpec(skin0.At(v), pairs);
    FillAllIdsBelow(skin0.At(v), pairs, reg.counter);
  }

  /** Translation keeps the mesh data valid: slots stay well formed with
      filled slots a prefix, the registry stays valid, and every id in a slot
      is one the registry handed out. */
  lemma TranslateKeepsValid(m: MeshData, src: ImportedMesh, material: Material)
    requires m.Valid() && src.Valid()
    ensures Translate(m, src, material).Valid()
  {
    var r := Translate(m, src, material);
    RegisterAllValid(m.Bones(), src.bones);
    forall v | 0 <= v < |r.boneIDs|
      ensures WellFormed(r.Skin().At(v))
      ensures forall k :: 0 <= k < MaxInfluences ==> r.boneIDs[v][k] < r.boneCounter
    {
      TranslateSlot(m, src, material, v);
    }
  }

  /** Translating into a newly added mesh component: one vertex per source
      position holding its coordinates; normals and UVs copied exactly when
      the source has them and empty otherwise; the faces' indices in order;
      one slot entry per vertex in each skinning array; and a registry
      whose counter is the number of distinct bone names. */
  lemma TranslateFresh(src: ImportedMesh, material: Material)
    requires src.Valid()
    ensures var r := Translate(EmptyMesh, src, material);
      && r.Valid()
      && r.vertices == src.positions
      && r.normals == (if src.HasNormals() then src.normals.value else [])
      && r.textureCoordinates == (if src.uv0.Some? then UvOf(src.uv0.value) else [])
      && r.indices == FlattenFaces(src.faces)
      && |r.boneIDs| == |src.positions| && |r.boneWeights| == |src.positions|
      && r.boneInfo.Keys == Names(src.bones)
      && r.boneCounter == |Names(src.bones)|
      && r.textures == LoadTextures(material.TexturePaths(Diffuse))
  {
    assert EmptyMesh.Valid();
    TranslateKeepsValid(EmptyMesh, src, material);
    if src.HasNormals() {
      CopyIntoEmpty(src.normals.value, Zero3);
    }
    if src.uv0.Some? {
      CopyIntoEmpty(UvOf(src.uv0.value), Zero2);
    }
    RegisterAllKeys(Fresh, src.bones);
    RegisterAllValid(Fresh, src.bones);
    assert Fresh.boneInfo.Keys + Names(src.bones) == Names(src.bones);
  }

  /** The skinning arrays of a newly added mesh component after translation:
      every vertex holds the first four (bone id, weight) pairs aimed at it,
      in bone order, with their weights unchanged; so it has
      min(4, number of weight entries naming it) filled slots, and a vertex
      that no bone names keeps ids -1 and weights 0. */
  lemma TranslateFreshSlots(src: ImportedMesh, material: Material, v: nat)
    requires src.Valid() && v < |src.positions|
    ensures var r := Translate(EmptyMesh, src, material);
      && Names(src.bones) <= r.boneInfo.Keys
      && r.Skin().At(v) == FirstFour(Incoming(r.boneInfo, src.bones, v))
      && Filled(r.boneIDs[v]) == Min(MaxInfluences, Targeting(src.bones, v))
      && (Targeting(src.bones, v) == 0 ==> r.boneIDs[v] == Empty.ids && r.boneWeights[v] == Empty.weights)
  {
    var n := |src.positions|;
    var skin0 := WithFreeSlots(EmptyMesh, n);
    assert skin0.Shaped() && BonesInRange(src.bones, |skin0.boneIDs|);
    assert skin0.At(v) == Empty;
    assert Valid(Fresh);
    FromFreshSlots(Fresh, skin0, src.bones, v);
    var pairs := Incoming(RegisterAll(Fresh, src.bones).boneInfo, src.bones, v);
    IncomingLength(RegisterAll(Fresh, src.bones).boneInfo, src.bones, v);
    if Targeting(src.bones, v) == 0 {
      assert FirstFour(pairs).ids == Empty.ids;
      assert FirstFour(pairs).weights == Empty.weights;
    }
  }
}
