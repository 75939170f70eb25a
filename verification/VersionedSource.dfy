/** Versioned constraint specs: an override map in front of a fixed inner source. */
module VersionedSource {
  import opened Wrappers

  datatype Provenance = Provenance(
    triggeredByTask: string,
    triggeredAtMs: nat,
    instability: real,
    checkIndex: nat,
    originalCheck: string,
    simplifiedCheck: string,
    consistency: real)

  /** `checks` is the rubric; `rest` stands for the fields no repair touches. */
  datatype Spec = Spec(
    id: string,
    checks: seq<string>,
    version: nat,
    repairProvenance: Option<Provenance>,
    rest: string)

  datatype VersionedSpec = VersionedSpec(spec: Spec, provenance: Option<Provenance>)

  datatype SourceError = NotFound(id: string) | Unavailable

  datatype VersionConflict = VersionConflict(id: string, expected: nat, actual: nat)

  type Inner = Result<seq<Spec>, SourceError>

  type Overrides = map<string, VersionedSpec>

  /** What a spec defaults to when nobody has it. */
  const FIRST_VERSION: nat := 1

  predicate FirstWithId(specs: seq<Spec>, i: nat) {
    i < |specs| && forall j :: 0 <= j < i ==> specs[j].id != specs[i].id
  }

  /** The first spec with the id. */
  function Find(specs: seq<Spec>, id: string): (found: Option<Spec>)
    ensures found.Some? ==> exists i: nat :: FirstWithId(specs, i) && specs[i] == found.value && specs[i].id == id
    ensures found.None? ==> forall i :: 0 <= i < |specs| ==> specs[i].id != id
    decreases |specs|
  {
    if specs == [] then None
    else
      var n := |specs| - 1;
      var earlier := Find(specs[..n], id);
      if earlier.Some? then
        assert exists i: nat :: FirstWithId(specs[..n], i) && specs[..n][i] == earlier.value && specs[..n][i].id == id;
        assert forall i: nat :: FirstWithId(specs[..n], i) ==> FirstWithId(specs, i) && specs[i] == specs[..n][i];
        earlier
      else
        assert forall i :: 0 <= i < n ==> specs[..n][i].id != id && specs[i] == specs[..n][i];
        assert specs[n].id == id ==> FirstWithId(specs, n);
        if specs[n].id == id then Some(specs[n]) else None
  }

  function Latest(inner: Inner, overrides: Overrides, id: string): Result<VersionedSpec, SourceError> {
    if id in overrides then Ok(overrides[id])
    else if inner.Err? then Err(inner.error)
    else
      var found := Find(inner.value, id);
      if found.Some? then Ok(VersionedSpec(found.value, None)) else Err(NotFound(id))
  }

  /** The version a compare-and-set is held against. */
  function CurrentVersion(inner: Inner, overrides: Overrides, id: string): (version: nat)
    ensures Latest(inner, overrides, id).Err? ==> version == 1
  {
    var latest := Latest(inner, overrides, id);
    if latest.Ok? then latest.value.spec.version else FIRST_VERSION
  }

  /** The override map after a successful write. */
  function Written(overrides: Overrides, id: string, expected: nat, spec: Spec, provenance: Provenance): Overrides {
    var next := spec.(version := expected + 1, repairProvenance := Some(provenance));
    overrides[id := VersionedSpec(next, Some(provenance))]
  }

  class Source {
    const inner: Inner
    var overrides: Overrides

    constructor (inner: Inner)
      ensures this.inner == inner && overrides == map[]
    {
      this.inner := inner;
      overrides := map[];
    }

    /** Every spec of the inner source, replaced where an override exists. */
    method LoadAll() returns (r: Result<seq<Spec>, SourceError>)
      ensures r.Err? <==> inner.Err?
      ensures r.Err? ==> r.error == inner.error
      ensures r.Ok? ==> |r.value| == |inner.value|
      ensures r.Ok? ==>
        forall i: nat :: i < |r.value| && inner.value[i].id !in overrides ==> r.value[i] == inner.value[i]
      ensures r.Ok? ==> forall i: nat :: i < |r.value| && inner.value[i].id in overrides ==>
        r.value[i] == overrides[inner.value[i].id].spec
      ensures r.Ok? ==> forall i: nat :: FirstWithId(inner.value, i) ==>
        var latest := Latest(inner, overrides, inner.value[i].id);
        latest.Ok? && latest.value.spec == r.value[i]
    {
      if inner.Err? {
        return Err(inner.error);
      }
      var specs := inner.value;
      for i := 0 to |specs|
        invariant |specs| == |inner.value|
        invariant forall j :: i <= j < |specs| ==> specs[j] == inner.value[j]
        invariant forall j :: 0 <= j < i ==>
          specs[j] == if inner.value[j].id in overrides then overrides[inner.value[j].id].spec else inner.value[j]
      {
        if specs[i].id in overrides {
          specs := specs[i := overrides[specs[i].id].spec];
        }
      }
      forall i: nat | FirstWithId(inner.value, i)
        ensures Find(inner.value, inner.value[i].id) == Some(inner.value[i])
      {
        FindIsFirst(inner.value, i);
      }
      return Ok(specs);
    }

    method LoadLatestVersioned(id: string) returns (r: Result<VersionedSpec, SourceError>)
      ensures r == Latest(inner, overrides, id)
      ensures id in overrides ==> r == Ok(overrides[id])
      ensures id !in overrides && inner.Err? ==> r == Err(inner.error)
      ensures id !in overrides && inner.Ok? ==>
        if r.Ok?
        then r.value.provenance == None && exists i: nat ::
          FirstWithId(inner.value, i) && inner.value[i] == r.value.spec && inner.value[i].id == id
        else r.error == NotFound(id) && forall i :: 0 <= i < |inner.value| ==> inner.value[i].id != id
    {
      if id in overrides {
        return Ok(overrides[id]);
      }
      if inner.Err? {
        return Err(inner.error);
      }
      var i := 0;
      while i < |inner.value|
        invariant i <= |inner.value|
        invariant forall j :: 0 <= j < i ==> inner.value[j].id != id
      {
        if inner.value[i].id == id {
          FindIsFirst(inner.value, i);
          return Ok(VersionedSpec(inner.value[i], None));
        }
        i := i + 1;
      }
      return Err(NotFound(id));
    }

    /** Compare-and-set on the version, under the write lock. */
    method CreateNextVersion(id: string, expected: nat, spec: Spec, provenance: Provenance)
      returns (r: Result<nat, VersionConflict>)
      modifies this
      ensures r.Ok? <==> old(CurrentVersion(inner, overrides, id)) == expected
      ensures r.Ok? ==> r.value == expected + 1
      ensures r.Ok? ==> overrides == Written(old(overrides), id, expected, spec, provenance)
      ensures r.Err? ==> overrides == old(overrides)
      ensures r.Err? ==> r.error == VersionConflict(id, expected, CurrentVersion(inner, overrides, id))
    {
      var latest := LoadLatestVersioned(id);
      var current := if latest.Ok? then latest.value.spec.version else FIRST_VERSION;
      if current != expected {
        return Err(VersionConflict(id, expected, current));
      }
      var stored := spec.(version := expected + 1, repairProvenance := Some(provenance));
      overrides := overrides[id := VersionedSpec(stored, Some(provenance))];
      return Ok(expected + 1);
    }
  }

  lemma FindIsFirst(specs: seq<Spec>, i: nat)
    requires FirstWithId(specs, i)
    ensures Find(specs, specs[i].id) == Some(specs[i])
  {
    var found := Find(specs, specs[i].id);
    if found.Some? {
      var j: nat :| FirstWithId(specs, j) && specs[j] == found.value && specs[j].id == specs[i].id;
      assert i == j;
    }
  }

  /** A write is what the next reader loads, provenance included; other ids are untouched. */
  lemma WriteThenLoad(
    inner: Inner, overrides: Overrides, id: string, expected: nat, spec: Spec, p: Provenance, other: string)
    ensures var after := Written(overrides, id, expected, spec, p);
      && Latest(inner, after, id) ==
         Ok(VersionedSpec(spec.(version := expected + 1, repairProvenance := Some(p)), Some(p)))
      && CurrentVersion(inner, after, id) == expected + 1
      && (other != id ==> Latest(inner, after, other) == Latest(inner, overrides, other))
  {
  }
}
