/** The fixed-capacity influence assigner: every vertex has four
    (bone id, weight) slots, a new pair goes into the first free slot, and a
    pair that finds no free slot is dropped without a trace. */
module Influences {

  /** Slots per vertex. */
  const MaxInfluences: nat := 4

  /** The bone id of a free slot. */
  const NoBone: int := -1

  /** One vertex's slots, as two parallel lists. A slot is filled when its id
      is not negative. */
  datatype Slots = Slots(ids: seq<int>, weights: seq<real>)

  /** One incoming (bone id, weight) pair. */
  datatype Influence = Influence(boneId: int, weight: real)

  /** The slots a vertex is given before any bone is processed. */
  const Empty: Slots := Slots([NoBone, NoBone, NoBone, NoBone], [0.0, 0.0, 0.0, 0.0])

  function Min(a: int, b: int): int { if a <= b then a else b }

  predicate Sized(s: Slots) {
    |s.ids| == MaxInfluences && |s.weights| == MaxInfluences
  }

  /** Filled slots form a prefix, and every free slot holds the sentinel id
      and a zero weight. */
  ghost predicate WellFormed(s: Slots) {
    && Sized(s)
    && (forall j, k :: 0 <= j < k < MaxInfluences && s.ids[k] >= 0 ==> s.ids[j] >= 0)
    && (forall k :: 0 <= k < MaxInfluences && s.ids[k] < 0 ==> s.ids[k] == NoBone && s.weights[k] == 0.0)
  }

  /** The index of the first free slot, or the number of slots if all are filled. */
  function FirstFree(ids: seq<int>): (k: nat)
    ensures k <= |ids|
    ensures forall j :: 0 <= j < k ==> ids[j] >= 0
    ensures k < |ids| ==> ids[k] < 0
  {
    if ids == [] || ids[0] < 0 then 0 else 1 + FirstFree(ids[1..])
  }

  /** The number of filled slots. */
  function Filled(ids: seq<int>): (n: nat)
    ensures n <= |ids|
  {
    if ids == [] then 0 else (if ids[0] >= 0 then 1 else 0) + Filled(ids[1..])
  }

  /** The assigner's step: write the pair into the first free slot; when no
      slot is free, leave the slots as they are. */
  function Place(s: Slots, boneId: int, weight: real): (r: Slots)
    requires Sized(s)
    ensures Sized(r)
  {
    var k := FirstFree(s.ids);
    if k < MaxInfluences then Slots(s.ids[k := boneId], s.weights[k := weight]) else s
  }

  /** The slots after a sequence of pairs has been placed, in order. */
  function FillAll(s: Slots, pairs: seq<Influence>): (r: Slots)
    requires Sized(s)
    ensures Sized(r)
    decreases |pairs|
  {
    if pairs == [] then s
    else
      var last := pairs[|pairs| - 1];
      Place(FillAll(s, pairs[..|pairs| - 1]), last.boneId, last.weight)
  }

  /** Reference definition: the first four pairs, in arrival order and with
      their weights as given, padded with free slots. */
  function FirstFour(pairs: seq<Influence>): Slots {
    Slots(seq(MaxInfluences, j => if 0 <= j < |pairs| then pairs[j].boneId else NoBone),
          seq(MaxInfluences, j => if 0 <= j < |pairs| then pairs[j].weight else 0.0))
  }

  ghost predicate AllBones(pairs: seq<Influence>) {
    forall i :: 0 <= i < |pairs| ==> pairs[i].boneId >= 0
  }

  /** A list with no filled slot counts zero. */
  lemma {:induction false} FilledNone(ids: seq<int>)
    requires forall j :: 0 <= j < |ids| ==> ids[j] < 0
    ensures Filled(ids) == 0
  {
    if ids != [] {
      FilledNone(ids[1..]);
    }
  }

  /** When filled slots form a prefix, the count of filled slots is the
      index of the first free one. */
  lemma {:induction false} FilledIsFirstFree(ids: seq<int>)
    requires forall j, k :: 0 <= j < k < |ids| && ids[k] >= 0 ==> ids[j] >= 0
    ensures Filled(ids) == FirstFree(ids)
  {
    if ids == [] {
    } else if ids[0] < 0 {
      FilledNone(ids);
    } else {
      FilledIsFirstFree(ids[1..]);
    }
  }

  /** One placement keeps the slots well formed, never overwrites a filled
      slot, fills exactly the first free slot when there is one, and drops
      the pair (changes nothing) when all four are filled. */
  lemma PlaceSpec(s: Slots, boneId: int, weight: real)
    requires WellFormed(s) && boneId >= 0
    ensures var r := Place(s, boneId, weight);
      && WellFormed(r)
      && (forall k :: 0 <= k < MaxInfluences && s.ids[k] >= 0 ==> r.ids[k] == s.ids[k] && r.weights[k] == s.weights[k])
      && (Filled(s.ids) == MaxInfluences ==> r == s)
      && (Filled(s.ids) < MaxInfluences ==>
            r.ids[Filled(s.ids)] == boneId && r.weights[Filled(s.ids)] == weight && Filled(r.ids) == Filled(s.ids) + 1)
  {
    FilledIsFirstFree(s.ids);
    var r := Place(s, boneId, weight);
    var k := FirstFree(s.ids);
    if k < MaxInfluences {
      assert WellFormed(r);
      FilledIsFirstFree(r.ids);
      if k + 1 < MaxInfluences {
        assert r.ids[k + 1] == s.ids[k + 1] < 0;
      }
      assert forall j :: 0 <= j <= k ==> r.ids[j] >= 0;
    }
  }

  /** Placing a sequence of pairs keeps the slots well formed, never
      overwrites a filled slot, and leaves min(4, filled + pairs) slots filled. */
  lemma {:induction false} FillAllSpec(s: Slots, pairs: seq<Influence>)
    requires WellFormed(s) && AllBones(pairs)
    ensures var r := FillAll(s, pairs);
      && WellFormed(r)
      && Filled(r.ids) == Min(MaxInfluences, Filled(s.ids) + |pairs|)
      && forall k :: 0 <= k < MaxInfluences && s.ids[k] >= 0 ==> r.ids[k] == s.ids[k] && r.weights[k] == s.weights[k]
    decreases |pairs|
  {
    if pairs != [] {
      var init := pairs[..|pairs| - 1];
      var last := pairs[|pairs| - 1];
      FillAllSpec(s, init);
      PlaceSpec(FillAll(s, init), last.boneId, last.weight);
    }
  }

  /** Placing `p` and then `q` is placing `p + q`. */
  lemma {:induction false} FillAllAppend(s: Slots, p: seq<Influence>, q: seq<Influence>)
    requires Sized(s)
    ensures FillAll(s, p + q) == FillAll(FillAll(s, p), q)
    decreases |q|
  {
    if q == [] {
      assert p + q == p;
    } else {
      var q' := q[..|q| - 1];
      FillAllAppend(s, p, q');
      assert (p + q)[..|p + q| - 1] == p + q';
    }
  }

  /** Placing one more pair after the first-four slots of `init` gives the
      first-four slots of `init + [last]`. */
  lemma FirstFourSnoc(init: seq<Influence>, last: Influence)
    requires AllBones(init)
    ensures Place(FirstFour(init), last.boneId, last.weight) == FirstFour(init + [last])
  {
    var s := FirstFour(init);
    var pairs := init + [last];
    var n := |init|;
    var k := FirstFree(s.ids);
    if n < MaxInfluences {
      assert s.ids[n] == NoBone;
      assert k == n;
      assert Place(s, last.boneId, last.weight).ids == FirstFour(pairs).ids;
      assert Place(s, last.boneId, last.weight).weights == FirstFour(pairs).weights;
    } else {
      assert k == MaxInfluences;
      assert FirstFour(pairs).ids == s.ids;
      assert FirstFour(pairs).weights == s.weights;
    }
  }

  /** From free slots, the result is exactly the first four pairs in arrival
      order with their original weights (no renormalisation); the rest are
      dropped. */
  lemma {:induction false} FillFromEmpty(pairs: seq<Influence>)
    requires AllBones(pairs)
    ensures FillAll(Empty, pairs) == FirstFour(pairs)
    decreases |pairs|
  {
    if pairs == [] {
      assert FirstFour(pairs).ids == Empty.ids;
      assert FirstFour(pairs).weights == Empty.weights;
    } else {
      var init := pairs[..|pairs| - 1];
      FillFromEmpty(init);
      FirstFourSnoc(init, pairs[|pairs| - 1]);
      assert init + [pairs[|pairs| - 1]] == pairs;
    }
  }

  /** From free slots, a vertex ends with min(4, number of pairs) filled slots. */
  lemma {:induction false} FilledFromEmpty(pairs: seq<Influence>)
    requires AllBones(pairs)
    ensures WellFormed(FillAll(Empty, pairs))
    ensures Filled(FillAll(Empty, pairs).ids) == Min(MaxInfluences, |pairs|)
  {
    assert WellFormed(Empty);
    FilledNone(Empty.ids);
    FillAllSpec(Empty, pairs);
  }
}
