/** The per-mesh bone registry: a map from bone name to its id and offset
    matrix, and a counter of the bones registered so far. Ids are handed out
    in first-seen order, starting from the counter's value. */
module BoneRegistry {
  import opened Imported

  datatype BoneInfo = BoneInfo(id: int, offset: Matrix4)

  datatype Registry = Registry(boneInfo: map<string, BoneInfo>, counter: int)

  /** The result of a lookup: the registry afterwards and the bone's id. */
  datatype Registered = Registered(registry: Registry, id: int)

  const Fresh: Registry := Registry(map[], 0)

  /** The ids are exactly 0 .. counter-1, one per registered name. */
  ghost predicate Valid(r: Registry) {
    && r.counter == |r.boneInfo.Keys|
    && (forall n :: n in r.boneInfo ==> 0 <= r.boneInfo[n].id < r.counter)
    && (forall n, m :: n in r.boneInfo && m in r.boneInfo && n != m ==> r.boneInfo[n].id != r.boneInfo[m].id)
  }

  /** Look a name up; an unknown name is registered under the counter's value
      with the given offset, and the counter moves on by one. */
  function Register(r: Registry, name: string, offset: Matrix4): Registered {
    if name !in r.boneInfo then
      Registered(Registry(r.boneInfo[name := BoneInfo(r.counter, offset)], r.counter + 1), r.counter)
    else
      Registered(r, r.boneInfo[name].id)
  }

  /** Registering keeps the registry valid, adds exactly the looked-up name
      and changes no existing entry. */
  lemma RegisterKeepsValid(r: Registry, name: string, offset: Matrix4)
    requires Valid(r)
    ensures var r' := Register(r, name, offset).registry;
      && Valid(r')
      && r'.boneInfo.Keys == r.boneInfo.Keys + {name}
      && (forall n :: n in r.boneInfo ==> r'.boneInfo[n] == r.boneInfo[n])
  {
    if name !in r.boneInfo {
      var m := r.boneInfo[name := BoneInfo(r.counter, offset)];
      assert m.Keys == r.boneInfo.Keys + {name};
      assert |m.Keys| == |r.boneInfo.Keys| + 1;
    }
  }

  /** The returned id is the name's entry afterwards and lies below the
      counter; a known name keeps its id and changes nothing; a new name gets
      the old counter value, its own offset, and the counter grows by one. */
  lemma RegisterSpec(r: Registry, name: string, offset: Matrix4)
    requires Valid(r)
    ensures var res := Register(r, name, offset);
      && name in res.registry.boneInfo
      && res.registry.boneInfo[name].id == res.id
      && 0 <= res.id < res.registry.counter
      && (name in r.boneInfo ==> res.registry == r && res.id == r.boneInfo[name].id)
      && (name !in r.boneInfo ==> res.id == r.counter && res.registry.counter == r.counter + 1
                                  && res.registry.boneInfo[name].offset == offset)
  {
    RegisterKeepsValid(r, name, offset);
  }

  /** Looking the same name up twice gives the same id, and the second
      lookup changes nothing. */
  lemma RegisterIdempotent(r: Registry, name: string, offset: Matrix4, offset': Matrix4)
    ensures var first := Register(r, name, offset);
      Register(first.registry, name, offset') == first
  {
  }

  /** The registry after looking up a sequence of bones, in order. */
  function RegisterAll(r: Registry, bones: seq<Bone>): Registry
    decreases |bones|
  {
    if bones == [] then r
    else
      var last := bones[|bones| - 1];
      Register(RegisterAll(r, bones[..|bones| - 1]), last.name, last.offset).registry
  }

  /** The set of bone names in a binding list. */
  function Names(bones: seq<Bone>): set<string>
    decreases |bones|
  {
    if bones == [] then {} else Names(bones[..|bones| - 1]) + {bones[|bones| - 1].name}
  }

  /** After a sequence of lookups the registry holds exactly the old names
      and the names seen. */
  lemma {:induction false} RegisterAllKeys(r: Registry, bones: seq<Bone>)
    ensures RegisterAll(r, bones).boneInfo.Keys == r.boneInfo.Keys + Names(bones)
    decreases |bones|
  {
    if bones != [] {
      RegisterAllKeys(r, bones[..|bones| - 1]);
    }
  }

  /** A sequence of lookups keeps the registry valid: its ids stay distinct,
      below the counter, and the counter stays the number of names held. */
  lemma {:induction false} RegisterAllValid(r: Registry, bones: seq<Bone>)
    requires Valid(r)
    ensures Valid(RegisterAll(r, bones))
    decreases |bones|
  {
    if bones != [] {
      var init := bones[..|bones| - 1];
      var last := bones[|bones| - 1];
      RegisterAllValid(r, init);
      RegisterKeepsValid(RegisterAll(r, init), last.name, last.offset);
    }
  }

  /** A sequence of lookups never changes an entry that was already there. */
  lemma {:induction false} RegisterAllKeeps(r: Registry, bones: seq<Bone>)
    ensures var r' := RegisterAll(r, bones);
      r.boneInfo.Keys <= r'.boneInfo.Keys && forall n :: n in r.boneInfo ==> r'.boneInfo[n] == r.boneInfo[n]
    decreases |bones|
  {
    if bones != [] {
      RegisterAllKeeps(r, bones[..|bones| - 1]);
    }
  }

  /** For a mesh's own fresh registry: the counter equals the number of
      distinct bone names, and each name has an id below it. */
  lemma FreshRegistryCounts(bones: seq<Bone>)
    ensures var r := RegisterAll(Fresh, bones);
      && r.counter == |Names(bones)|
      && r.boneInfo.Keys == Names(bones)
      && (forall n :: n in r.boneInfo ==> 0 <= r.boneInfo[n].id < r.counter)
  {
    RegisterAllKeys(Fresh, bones);
    RegisterAllValid(Fresh, bones);
    assert Fresh.boneInfo.Keys + Names(bones) == Names(bones);
  }
}
