/** Bone processing for one mesh: every bone binding is looked up in the
    mesh's registry and each of its (vertex, weight) pairs is handed to the
    influence assigner of the vertex it names. */
module Skinning {
  import opened Imported
  import opened Influences
  import opened BoneRegistry

  /** The mesh's two parallel per-vertex arrays of bone ids and weights. */
  datatype Skin = Skin(boneIDs: seq<seq<int>>, boneWeights: seq<seq<real>>) {

    /** Both arrays have one entry per vertex and every entry has four slots. */
    predicate Shaped() {
      && |boneIDs| == |boneWeights|
      && forall v :: 0 <= v < |boneIDs| ==> |boneIDs[v]| == MaxInfluences && |boneWeights[v]| == MaxInfluences
    }

    function At(v: nat): (s: Slots)
      requires Shaped() && v < |boneIDs|
      ensures Sized(s)
    {
      Slots(boneIDs[v], boneWeights[v])
    }

    function Put(v: nat, s: Slots): (r: Skin)
      requires Shaped() && v < |boneIDs| && Sized(s)
      ensures r.Shaped() && |r.boneIDs| == |boneIDs|
    {
      Skin(boneIDs[v := s.ids], boneWeights[v := s.weights])
    }

    ghost predicate AllWellFormed() {
      Shaped() && forall v :: 0 <= v < |boneIDs| ==> WellFormed(At(v))
    }
  }

  ghost predicate InRange(weights: seq<VertexWeight>, n: nat) {
    forall i :: 0 <= i < |weights| ==> weights[i].vertexId < n
  }

  ghost predicate BonesInRange(bones: seq<Bone>, n: nat) {
    forall b :: 0 <= b < |bones| ==> InRange(bones[b].weights, n)
  }

  /** The arrays after one bone's pairs have been assigned, in order. */
  function AddWeights(skin: Skin, boneId: int, weights: seq<VertexWeight>): (r: Skin)
    requires skin.Shaped() && InRange(weights, |skin.boneIDs|)
    ensures r.Shaped() && |r.boneIDs| == |skin.boneIDs|
    decreases |weights|
  {
    if weights == [] then skin
    else
      var w := weights[|weights| - 1];
      var prev := AddWeights(skin, boneId, weights[..|weights| - 1]);
      prev.Put(w.vertexId, Place(prev.At(w.vertexId), boneId, w.weight))
  }

  /** The arrays after every bone has been processed, in order; each bone's
      id is the one the registry returns at that point of the walk. */
  function AddBones(reg: Registry, skin: Skin, bones: seq<Bone>): (r: Skin)
    requires skin.Shaped() && BonesInRange(bones, |skin.boneIDs|)
    ensures r.Shaped() && |r.boneIDs| == |skin.boneIDs|
    decreases |bones|
  {
    if bones == [] then skin
    else
      var init := bones[..|bones| - 1];
      var last := bones[|bones| - 1];
      var id := Register(RegisterAll(reg, init), last.name, last.offset).id;
      AddWeights(AddBones(reg, skin, init), id, last.weights)
  }

  /** The pairs of one bone that name vertex `v`, in order. */
  function Hits(boneId: int, weights: seq<VertexWeight>, v: nat): seq<Influence>
    decreases |weights|
  {
    if weights == [] then []
    else
      var w := weights[|weights| - 1];
      Hits(boneId, weights[..|weights| - 1], v) + (if w.vertexId == v then [Influence(boneId, w.weight)] else [])
  }

  /** Everything aimed at vertex `v`, in processing order, each bone under
      the id `info` gives its name. */
  function Incoming(info: map<string, BoneInfo>, bones: seq<Bone>, v: nat): seq<Influence>
    requires Names(bones) <= info.Keys
    decreases |bones|
  {
    if bones == [] then []
    else
      var last := bones[|bones| - 1];
      Incoming(info, bones[..|bones| - 1], v) + Hits(info[last.name].id, last.weights, v)
  }

  /** The number of weight entries, over all bones, that name vertex `v`. */
  function Targeting(bones: seq<Bone>, v: nat): nat
    decreases |bones|
  {
    if bones == [] then 0
    else Targeting(bones[..|bones| - 1], v) + Count(bones[|bones| - 1].weights, v)
  }

  function Count(weights: seq<VertexWeight>, v: nat): nat
    decreases |weights|
  {
    if weights == [] then 0
    else Count(weights[..|weights| - 1], v) + (if weights[|weights| - 1].vertexId == v then 1 else 0)
  }

  lemma {:induction false} HitsLength(boneId: int, weights: seq<VertexWeight>, v: nat)
    ensures |Hits(boneId, weights, v)| == Count(weights, v)
    decreases |weights|
  {
    if weights != [] {
      HitsLength(boneId, weights[..|weights| - 1], v);
    }
  }

  /** As many pairs reach a vertex as there are weight entries naming it. */
  lemma {:induction false} IncomingLength(info: map<string, BoneInfo>, bones: seq<Bone>, v: nat)
    requires Names(bones) <= info.Keys
    ensures |Incoming(info, bones, v)| == Targeting(bones, v)
    decreases |bones|
  {
    if bones != [] {
      var last := bones[|bones| - 1];
      IncomingLength(info, bones[..|bones| - 1], v);
      HitsLength(info[last.name].id, last.weights, v);
    }
  }

  /** Every pair reaching a vertex carries one of the registry's ids. */
  lemma {:induction false} IncomingIds(info: map<string, BoneInfo>, bones: seq<Bone>, v: nat, counter: int)
    requires Names(bones) <= info.Keys
    requires forall n :: n in info ==> 0 <= info[n].id < counter
    ensures forall i :: 0 <= i < |Incoming(info, bones, v)| ==> 0 <= Incoming(info, bones, v)[i].boneId < counter
    decreases |bones|
  {
    if bones != [] {
      var last := bones[|bones| - 1];
      IncomingIds(info, bones[..|bones| - 1], v, counter);
      HitsIds(info[last.name].id, last.weights, v);
    }
  }

  lemma {:induction false} HitsIds(boneId: int, weights: seq<VertexWeight>, v: nat)
    ensures forall i :: 0 <= i < |Hits(boneId, weights, v)| ==> Hits(boneId, weights, v)[i].boneId == boneId
    decreases |weights|
  {
    if weights != [] {
      HitsIds(boneId, weights[..|weights| - 1], v);
    }
  }

  /** Incoming only depends on the ids of the names it meets. */
  lemma {:induction false} IncomingStable(info: map<string, BoneInfo>, info': map<string, BoneInfo>, bones: seq<Bone>, v: nat)
    requires Names(bones) <= info.Keys && Names(bones) <= info'.Keys
    requires forall n :: n in Names(bones) ==> info'[n].id == info[n].id
    ensures Incoming(info', bones, v) == Incoming(info, bones, v)
    decreases |bones|
  {
    if bones != [] {
      IncomingStable(info, info', bones[..|bones| - 1], v);
    }
  }

  /** One bone's pairs reach each vertex through that vertex's own slots:
      vertex `v` ends as if exactly the pairs naming it were placed, in order. */
  lemma {:induction false} AddWeightsAt(skin: Skin, boneId: int, weights: seq<VertexWeight>, v: nat)
    requires skin.Shaped() && InRange(weights, |skin.boneIDs|) && v < |skin.boneIDs|
    ensures AddWeights(skin, boneId, weights).At(v) == FillAll(skin.At(v), Hits(boneId, weights, v))
    decreases |weights|
  {
    if weights != [] {
      var init := weights[..|weights| - 1];
      var w := weights[|weights| - 1];
      AddWeightsAt(skin, boneId, init, v);
      var h := Hits(boneId, init, v);
      if w.vertexId == v {
        var p := Influence(boneId, w.weight);
        assert (h + [p])[..|h + [p]| - 1] == h;
      } else {
        assert h + [] == h;
      }
    }
  }

  /** After all bones, vertex `v` holds its old slots filled with every pair
      aimed at it, in processing order, under the ids of the final registry. */
  lemma {:induction false} AddBonesAt(reg: Registry, skin: Skin, bones: seq<Bone>, v: nat)
    requires skin.Shaped() && BonesInRange(bones, |skin.boneIDs|) && v < |skin.boneIDs|
    ensures Names(bones) <= RegisterAll(reg, bones).boneInfo.Keys
    ensures AddBones(reg, skin, bones).At(v)
         == FillAll(skin.At(v), Incoming(RegisterAll(reg, bones).boneInfo, bones, v))
    decreases |bones|
  {
    RegisterAllKeys(reg, bones);
    if bones != [] {
      var init := bones[..|bones| - 1];
      var last := bones[|bones| - 1];
      var before := RegisterAll(reg, init);
      var after := RegisterAll(reg, bones);
      var id := Register(before, last.name, last.offset).id;
      AddBonesAt(reg, skin, init, v);
      RegisterAllKeys(reg, init);
      assert after == Register(before, last.name, last.offset).registry;
      assert after.boneInfo[last.name].id == id;
      IncomingStable(before.boneInfo, after.boneInfo, init, v);
      var prev := AddBones(reg, skin, init);
      AddWeightsAt(prev, id, last.weights, v);
      FillAllAppend(skin.At(v), Incoming(before.boneInfo, init, v), Hits(id, last.weights, v));
    }
  }

  /** The bone-processing theorem for a mesh whose slots start free and whose
      registry starts valid: each vertex keeps exactly the first four pairs
      aimed at it, with their original weights, so min(4, number of weight
      entries naming it) slots are filled, each with an id the registry
      handed out. */
  lemma FromFreshSlots(reg: Registry, skin: Skin, bones: seq<Bone>, v: nat)
    requires Valid(reg)
    requires skin.Shaped() && BonesInRange(bones, |skin.boneIDs|) && v < |skin.boneIDs|
    requires skin.At(v) == Empty
    ensures var r := RegisterAll(reg, bones);
      && Names(bones) <= r.boneInfo.Keys
      && AddBones(reg, skin, bones).At(v) == FirstFour(Incoming(r.boneInfo, bones, v))
      && WellFormed(AddBones(reg, skin, bones).At(v))
      && Filled(AddBones(reg, skin, bones).At(v).ids) == Min(MaxInfluences, Targeting(bones, v))
      && forall k :: 0 <= k < MaxInfluences ==>
           var id := AddBones(reg, skin, bones).At(v).ids[k]; id == NoBone || 0 <= id < r.counter
  {
    var r := RegisterAll(reg, bones);
    AddBonesAt(reg, skin, bones, v);
    RegisterAllValid(reg, bones);
    var pairs := Incoming(r.boneInfo, bones, v);
    IncomingIds(r.boneInfo, bones, v, r.counter);
    IncomingLength(r.boneInfo, bones, v);
    FillFromEmpty(pairs);
    FilledFromEmpty(pairs);
  }
}
