/** Resource sets: quotas of VM resources that a group of users may draw
    from. A set's limits record, per resource id, the total quota and the
    part still available; creating or moving a VM allocates its usage in
    its set and releases it from the previous one. The set record is a
    value; the store that persists it is not modelled. */
module ResourceSets {
  import opened Wrappers
  import ServerUtils

  datatype Limit = Limit(available: int, total: int)

  /** A limit as stored: an object, or a bare quantity. */
  datatype RawLimit = LimitObject(limit: Limit) | Quantity(n: int)

  /** A set record as it may have been stored, with its optional fields. */
  datatype RawSet = RawSet(
    id: string,
    ipPools: Option<seq<string>>,
    limits: Option<map<string, RawLimit>>,
    name: Option<string>,
    objects: Option<seq<string>>,
    subjects: Option<seq<string>>)

  datatype ResourceSet = ResourceSet(
    id: string,
    ipPools: seq<string>,
    limits: map<string, Limit>,
    name: string,
    objects: seq<string>,
    subjects: seq<string>)

  // -----------------------------------------------------------------
  // normalize

  function NormalizeLimit(l: RawLimit): (r: Limit)
    ensures l.Quantity? ==> r.available == l.n && r.total == l.n
    ensures l.LimitObject? ==> r == l.limit
  {
    match l
    case LimitObject(limit) => limit
    case Quantity(n) => Limit(n, n)
  }

  /** `set.x || default` for each optional field; a bare quantity `n`
      becomes the limit `{available: n, total: n}`. */
  function Normalize(raw: RawSet): (r: ResourceSet)
    ensures r.id == raw.id
    ensures r.ipPools == if raw.ipPools.Some? then raw.ipPools.value else []
    ensures r.name == if raw.name.Some? then raw.name.value else ""
    ensures r.objects == if raw.objects.Some? then raw.objects.value else []
    ensures r.subjects == if raw.subjects.Some? then raw.subjects.value else []
    ensures raw.limits.None? ==> r.limits == map[]
    ensures raw.limits.Some? ==> r.limits.Keys == raw.limits.value.Keys
    ensures raw.limits.Some? ==> forall k :: k in r.limits ==> r.limits[k] == NormalizeLimit(raw.limits.value[k])
  {
    ResourceSet(
      raw.id,
      if raw.ipPools.Some? then raw.ipPools.value else [],
      if raw.limits.Some? then map k | k in raw.limits.value :: NormalizeLimit(raw.limits.value[k]) else map[],
      if raw.name.Some? then raw.name.value else "",
      if raw.objects.Some? then raw.objects.value else [],
      if raw.subjects.Some? then raw.subjects.value else [])
  }

  /** A normalized set as it is saved. */
  function Stored(s: ResourceSet): RawSet {
    RawSet(s.id, Some(s.ipPools), Some(map k | k in s.limits :: LimitObject(s.limits[k])), Some(s.name), Some(s.objects), Some(s.subjects))
  }

  /** Reading back a saved set gives the set itself. */
  lemma NormalizeStored(s: ResourceSet)
    ensures Normalize(Stored(s)) == s
  {
    assert Normalize(Stored(s)).limits == s.limits;
  }

  /** Normalizing twice is normalizing once. */
  lemma NormalizeIdempotent(raw: RawSet)
    ensures Normalize(Stored(Normalize(raw))) == Normalize(raw)
  {
    NormalizeStored(Normalize(raw));
  }

  // -----------------------------------------------------------------
  // computeVmResourcesUsage

  /** A VBD: its type, the id of its VDI, and the VDI's virtual size when
      the VDI object is known. */
  datatype Vbd = Vbd(isDisk: bool, vdiId: string, vdiSize: Option<int>)

  datatype Vm = Vm(vcpusAtStartup: int, memoryDynamicMax: int, vbds: seq<Vbd>)

  datatype Usage = Usage(cpus: int, disk: int, disks: int, memory: int, vms: int)

  /** The state of the loop over the VBDs: the VDIs already counted. */
  datatype DiskScan = DiskScan(processed: set<string>, disks: int, disk: int)

  predicate Counted(v: Vbd) {
    v.isDisk && v.vdiSize.Some?
  }

  /** The VDI ids of the disk VBDs whose VDI is known. */
  ghost function DiskIds(vbds: seq<Vbd>): set<string> {
    set i | 0 <= i < |vbds| && Counted(vbds[i]) :: vbds[i].vdiId
  }

  /** `forEach(vm.$VBDs, …)`: a disk whose VDI is known and not yet
      processed is counted, and its size added. */
  function ScanDisks(vbds: seq<Vbd>): (r: DiskScan)
    ensures r.processed == DiskIds(vbds)
    ensures r.disks == |r.processed|
  {
    if |vbds| == 0 then DiskScan({}, 0, 0)
    else
      var front := vbds[..|vbds| - 1];
      var v := vbds[|vbds| - 1];
      var before := ScanDisks(front);
      assert forall i :: 0 <= i < |front| ==> front[i] == vbds[i];
      assert DiskIds(vbds) == DiskIds(front) + (if Counted(v) then {v.vdiId} else {});
      if Counted(v) && v.vdiId !in before.processed then
        DiskScan(before.processed + {v.vdiId}, before.disks + 1, before.disk + v.vdiSize.value)
      else before
  }

  /** The usage a VM draws from its set. */
  function ComputeVmResourcesUsage(vm: Vm): (r: Usage)
    ensures r.vms == 1 && r.cpus == vm.vcpusAtStartup && r.memory == vm.memoryDynamicMax
    ensures r.disks == |DiskIds(vm.vbds)|
  {
    var scan := ScanDisks(vm.vbds);
    Usage(vm.vcpusAtStartup, scan.disk, scan.disks, vm.memoryDynamicMax, 1)
  }

  /** A second VBD of an already counted VDI adds nothing. */
  lemma SharedDiskCountedOnce(vm: Vm, v: Vbd)
    requires exists i :: 0 <= i < |vm.vbds| && Counted(vm.vbds[i]) && vm.vbds[i].vdiId == v.vdiId
    ensures ComputeVmResourcesUsage(Vm(vm.vcpusAtStartup, vm.memoryDynamicMax, vm.vbds + [v])) == ComputeVmResourcesUsage(vm)
  {
    var vbds := vm.vbds + [v];
    assert vbds[..|vbds| - 1] == vm.vbds;
    assert v.vdiId in DiskIds(vm.vbds);
  }

  /** A new disk adds one disk and its size. */
  lemma NewDiskCounted(vm: Vm, v: Vbd)
    requires Counted(v) && forall i :: 0 <= i < |vm.vbds| && Counted(vm.vbds[i]) ==> vm.vbds[i].vdiId != v.vdiId
    ensures var u := ComputeVmResourcesUsage(Vm(vm.vcpusAtStartup, vm.memoryDynamicMax, vm.vbds + [v]));
      && u.disks == ComputeVmResourcesUsage(vm).disks + 1
      && u.disk == ComputeVmResourcesUsage(vm).disk + v.vdiSize.value
  {
    var vbds := vm.vbds + [v];
    assert vbds[..|vbds| - 1] == vm.vbds;
    assert v.vdiId !in DiskIds(vm.vbds);
  }

  // -----------------------------------------------------------------
  // checkResourceSetConstraints

  datatype User = User(id: string, permission: string, groups: seq<string>)

  datatype SetError = Unauthorized | NotEnough(resource: string, setId: string)

  /** `some(set.subjects, lightSet(user.groups).add(user.id).has)`. */
  function SomeSubjectOf(subjects: seq<string>, has: ServerUtils.LightSet): (r: bool)
    ensures r <==> exists i :: 0 <= i < |subjects| && ServerUtils.Has(has, subjects[i])
  {
    if |subjects| == 0 then false
    else if ServerUtils.Has(has, subjects[0]) then true
    else
      var r := SomeSubjectOf(subjects[1..], has);
      assert forall i :: 1 <= i < |subjects| ==> subjects[i] == subjects[1..][i - 1];
      r
  }

  /** `every(objectIds, lightSet(set.objects).has)`. */
  function EveryObjectIn(objectIds: seq<string>, has: ServerUtils.LightSet): (r: bool)
    ensures r <==> forall i :: 0 <= i < |objectIds| ==> ServerUtils.Has(has, objectIds[i])
  {
    if |objectIds| == 0 then true
    else if !ServerUtils.Has(has, objectIds[0]) then false
    else
      var r := EveryObjectIn(objectIds[1..], has);
      assert forall i :: 1 <= i < |objectIds| ==> objectIds[i] == objectIds[1..][i - 1];
      r
  }

  /** Unauthorized unless the user is an admin or one of the set's
      subjects is the user or one of their groups, and unless every given
      object belongs to the set. */
  function CheckResourceSetConstraints(s: ResourceSet, user: User, objectIds: Option<seq<string>>): (r: Result<(), SetError>)
    ensures r.Err? ==> r.error == Unauthorized
    ensures r.Err? <==>
      || (user.permission != "admin" && forall i :: 0 <= i < |s.subjects| ==> s.subjects[i] != user.id && s.subjects[i] !in user.groups)
      || (objectIds.Some? && exists i :: 0 <= i < |objectIds.value| && objectIds.value[i] !in s.objects)
  {
    var subjectsOfUser := ServerUtils.Add(ServerUtils.NewLightSet(user.groups), user.id);
    ServerUtils.NewLightSetMembers(user.groups);
    ServerUtils.AddMembers(ServerUtils.NewLightSet(user.groups), user.id);
    ServerUtils.NewLightSetMembers(s.objects);
    if (user.permission != "admin" && !SomeSubjectOf(s.subjects, subjectsOfUser))
      || (objectIds.Some? && !EveryObjectIn(objectIds.value, ServerUtils.NewLightSet(s.objects)))
    then Err(Unauthorized)
    else Ok(())
  }

  // -----------------------------------------------------------------
  // updateResourceSet

  /** The new limits: a new id gets its quantity as total and available;
      an existing one keeps what was used of it and gets the new total.
      Ids left out are dropped. */
  function UpdateLimits(previous: map<string, Limit>, quantities: map<string, int>): (r: map<string, Limit>)
    ensures r.Keys == quantities.Keys
    ensures forall id :: id in r ==> r[id].total == quantities[id]
    ensures forall id :: id in r && id !in previous ==> r[id].available == quantities[id]
  {
    map id | id in quantities ::
      if id !in previous then Limit(quantities[id], quantities[id])
      else Limit(previous[id].available - previous[id].total + quantities[id], quantities[id])
  }

  /** What was used of a limit. */
  function Used(l: Limit): int {
    l.total - l.available
  }

  /** Changing a total keeps what is used of it. */
  lemma UpdateLimitsKeepsUsed(previous: map<string, Limit>, quantities: map<string, int>)
    ensures forall id :: id in quantities && id in previous ==> Used(UpdateLimits(previous, quantities)[id]) == Used(previous[id])
  {
  }

  /** The fields `updateResourceSet` may be given. */
  datatype SetUpdate = SetUpdate(
    name: Option<string>,
    subjects: Option<seq<string>>,
    objects: Option<seq<string>>,
    limits: Option<map<string, int>>,
    ipPools: Option<seq<string>>)

  /** Each given field replaces the set's (an empty name does not, being
      falsy); given limits are recomputed. */
  function UpdateResourceSet(s: ResourceSet, u: SetUpdate): (r: ResourceSet)
    ensures r.id == s.id
    ensures r.name == if u.name.Some? && u.name.value != "" then u.name.value else s.name
    ensures r.subjects == if u.subjects.Some? then u.subjects.value else s.subjects
    ensures r.objects == if u.objects.Some? then u.objects.value else s.objects
    ensures r.ipPools == if u.ipPools.Some? then u.ipPools.value else s.ipPools
    ensures u.limits.None? ==> r.limits == s.limits
    ensures u.limits.Some? ==> r.limits.Keys == u.limits.value.Keys
  {
    ResourceSet(
      s.id,
      if u.ipPools.Some? then u.ipPools.value else s.ipPools,
      if u.limits.Some? then UpdateLimits(s.limits, u.limits.value) else s.limits,
      if u.name.Some? && u.name.value != "" then u.name.value else s.name,
      if u.objects.Some? then u.objects.value else s.objects,
      if u.subjects.Some? then u.subjects.value else s.subjects)
  }

  // -----------------------------------------------------------------
  // allocateLimitsInResourceSet and releaseLimitsInResourceSet

  predicate DistinctIds(usage: seq<(string, int)>) {
    forall i, j :: 0 <= i < j < |usage| ==> usage[i].0 != usage[j].0
  }

  /** Take each quantity out of the limit with the same id; ids without a
      limit are ignored. The first limit to go below zero fails the whole
      allocation, and nothing is saved. */
  function Allocate(limits: map<string, Limit>, usage: seq<(string, int)>, setId: string): (r: Result<map<string, Limit>, SetError>)
    ensures r.Ok? ==> r.value.Keys == limits.Keys
    ensures r.Ok? ==> forall id :: id in limits ==> r.value[id].total == limits[id].total
    ensures r.Err? ==> exists i :: 0 <= i < |usage| && usage[i].0 in limits && r.error == NotEnough(usage[i].0, setId)
  {
    if |usage| == 0 then Ok(limits)
    else
      var (id, quantity) := usage[0];
      if id !in limits then Allocate(limits, usage[1..], setId)
      else if limits[id].available - quantity < 0 then Err(NotEnough(id, setId))
      else
        var r := Allocate(limits[id := Limit(limits[id].available - quantity, limits[id].total)], usage[1..], setId);
        assert r.Err? ==> exists i :: 1 <= i < |usage| && usage[i].0 in limits && r.error == NotEnough(usage[i].0, setId) by {
          if r.Err? {
            var i :| 0 <= i < |usage[1..]| && usage[1..][i].0 in limits[id := Limit(limits[id].available - quantity, limits[id].total)] && r.error == NotEnough(usage[1..][i].0, setId);
            assert usage[i + 1] == usage[1..][i];
          }
        }
        r
  }

  /** Allocation succeeds exactly when every limit touched keeps a
      non-negative availability, and then takes each quantity out of
      its limit and leaves every other limit alone. */
  lemma AllocateSpec(limits: map<string, Limit>, usage: seq<(string, int)>, setId: string)
    requires DistinctIds(usage)
    ensures Allocate(limits, usage, setId).Ok? <==>
      forall i :: 0 <= i < |usage| && usage[i].0 in limits ==> limits[usage[i].0].available - usage[i].1 >= 0
    ensures Allocate(limits, usage, setId).Ok? ==>
      forall i :: 0 <= i < |usage| && usage[i].0 in limits ==>
        Allocate(limits, usage, setId).value[usage[i].0].available == limits[usage[i].0].available - usage[i].1
    ensures Allocate(limits, usage, setId).Ok? ==>
      forall id :: id in limits && (forall i :: 0 <= i < |usage| ==> usage[i].0 != id) ==>
        Allocate(limits, usage, setId).value[id] == limits[id]
  {
    AllocateOk(limits, usage, setId);
    if Allocate(limits, usage, setId).Ok? {
      AllocateTaken(limits, usage, setId);
      AllocateUntouched(limits, usage, setId);
    }
  }

  lemma {:induction false} AllocateOk(limits: map<string, Limit>, usage: seq<(string, int)>, setId: string)
    requires DistinctIds(usage)
    ensures Allocate(limits, usage, setId).Ok? <==>
      forall i :: 0 <= i < |usage| && usage[i].0 in limits ==> limits[usage[i].0].available - usage[i].1 >= 0
  {
    if |usage| > 0 {
      var (id, quantity) := usage[0];
      var rest := usage[1..];
      assert forall i :: 1 <= i < |usage| ==> usage[i] == rest[i - 1];
      assert DistinctIds(rest);
      if id !in limits {
        AllocateOk(limits, rest, setId);
      } else if limits[id].available - quantity >= 0 {
        var next := limits[id := Limit(limits[id].available - quantity, limits[id].total)];
        AllocateOk(next, rest, setId);
        assert forall i :: 0 <= i < |rest| ==> rest[i].0 != id;
        assert forall i :: 0 <= i < |rest| && rest[i].0 in limits ==> next[rest[i].0] == limits[rest[i].0];
      }
    }
  }

  lemma {:induction false} AllocateTaken(limits: map<string, Limit>, usage: seq<(string, int)>, setId: string)
    requires DistinctIds(usage)
    requires Allocate(limits, usage, setId).Ok?
    ensures forall i :: 0 <= i < |usage| && usage[i].0 in limits ==>
      Allocate(limits, usage, setId).value[usage[i].0].available == limits[usage[i].0].available - usage[i].1
  {
    if |usage| > 0 {
      var (id, quantity) := usage[0];
      var rest := usage[1..];
      assert forall i :: 1 <= i < |usage| ==> usage[i] == rest[i - 1];
      assert DistinctIds(rest);
      if id !in limits {
        AllocateTaken(limits, rest, setId);
      } else {
        var next := limits[id := Limit(limits[id].available - quantity, limits[id].total)];
        AllocateTaken(next, rest, setId);
        AllocateUntouched(next, rest, setId);
        assert forall i :: 0 <= i < |rest| ==> rest[i].0 != id;
        assert forall i :: 0 <= i < |rest| && rest[i].0 in limits ==> next[rest[i].0] == limits[rest[i].0];
      }
    }
  }

  lemma {:induction false} AllocateUntouched(limits: map<string, Limit>, usage: seq<(string, int)>, setId: string)
    requires Allocate(limits, usage, setId).Ok?
    ensures forall id :: id in limits && (forall i :: 0 <= i < |usage| ==> usage[i].0 != id) ==>
      Allocate(limits, usage, setId).value[id] == limits[id]
  {
    if |usage| > 0 {
      var (id, quantity) := usage[0];
      var rest := usage[1..];
      assert forall i :: 1 <= i < |usage| ==> usage[i] == rest[i - 1];
      if id !in limits {
        AllocateUntouched(limits, rest, setId);
      } else {
        var next := limits[id := Limit(limits[id].available - quantity, limits[id].total)];
        AllocateUntouched(next, rest, setId);
      }
    }
  }

  /** Give each quantity back to the limit with the same id, never beyond
      its total; ids without a limit are ignored. */
  function Release(limits: map<string, Limit>, usage: seq<(string, int)>): (r: map<string, Limit>)
    ensures r.Keys == limits.Keys
    ensures forall id :: id in limits ==> r[id].total == limits[id].total
  {
    if |usage| == 0 then limits
    else
      var (id, quantity) := usage[0];
      if id !in limits then Release(limits, usage[1..])
      else
        var available := limits[id].available + quantity;
        var l := Limit(if available > limits[id].total then limits[id].total else available, limits[id].total);
        Release(limits[id := l], usage[1..])
  }

  /** Every touched limit ends with `min(available + quantity, total)`,
      so within its total; the others are left alone. */
  lemma ReleaseSpec(limits: map<string, Limit>, usage: seq<(string, int)>)
    requires DistinctIds(usage)
    ensures forall i :: 0 <= i < |usage| && usage[i].0 in limits ==>
      var l := limits[usage[i].0];
      Release(limits, usage)[usage[i].0].available ==
        if l.available + usage[i].1 > l.total then l.total else l.available + usage[i].1
    ensures forall i :: 0 <= i < |usage| && usage[i].0 in limits ==>
      Release(limits, usage)[usage[i].0].available <= limits[usage[i].0].total
    ensures forall id :: id in limits && (forall i :: 0 <= i < |usage| ==> usage[i].0 != id) ==>
      Release(limits, usage)[id] == limits[id]
  {
    ReleaseGiven(limits, usage);
    ReleaseUntouched(limits, usage);
  }

  lemma {:induction false} ReleaseGiven(limits: map<string, Limit>, usage: seq<(string, int)>)
    requires DistinctIds(usage)
    ensures forall i :: 0 <= i < |usage| && usage[i].0 in limits ==>
      var l := limits[usage[i].0];
      Release(limits, usage)[usage[i].0].available ==
        if l.available + usage[i].1 > l.total then l.total else l.available + usage[i].1
  {
    if |usage| > 0 {
      var (id, quantity) := usage[0];
      var rest := usage[1..];
      assert forall i :: 1 <= i < |usage| ==> usage[i] == rest[i - 1];
      assert DistinctIds(rest);
      if id !in limits {
        ReleaseGiven(limits, rest);
      } else {
        var available := limits[id].available + quantity;
        var next := limits[id := Limit(if available > limits[id].total then limits[id].total else available, limits[id].total)];
        ReleaseGiven(next, rest);
        ReleaseUntouched(next, rest);
        assert forall i :: 0 <= i < |rest| ==> rest[i].0 != id;
        assert forall i :: 0 <= i < |rest| && rest[i].0 in limits ==> next[rest[i].0] == limits[rest[i].0];
      }
    }
  }

  lemma {:induction false} ReleaseUntouched(limits: map<string, Limit>, usage: seq<(string, int)>)
    ensures forall id :: id in limits && (forall i :: 0 <= i < |usage| ==> usage[i].0 != id) ==>
      Release(limits, usage)[id] == limits[id]
  {
    if |usage| > 0 {
      var (id, quantity) := usage[0];
      var rest := usage[1..];
      assert forall i :: 1 <= i < |usage| ==> usage[i] == rest[i - 1];
      if id !in limits {
        ReleaseUntouched(limits, rest);
      } else {
        var available := limits[id].available + quantity;
        var next := limits[id := Limit(if available > limits[id].total then limits[id].total else available, limits[id].total)];
        ReleaseUntouched(next, rest);
      }
    }
  }

  /** Releasing what was just allocated restores limits that were within
      their totals. */
  lemma ReleaseUndoesAllocate(limits: map<string, Limit>, usage: seq<(string, int)>, setId: string)
    requires DistinctIds(usage)
    requires forall id :: id in limits ==> limits[id].available <= limits[id].total
    requires Allocate(limits, usage, setId).Ok?
    ensures Release(Allocate(limits, usage, setId).value, usage) == limits
  {
    var taken := Allocate(limits, usage, setId).value;
    AllocateSpec(limits, usage, setId);
    ReleaseSpec(taken, usage);
    var released := Release(taken, usage);
    forall id | id in limits
      ensures released[id] == limits[id]
    {
      if i :| 0 <= i < |usage| && usage[i].0 == id {
        assert released[id].available == limits[id].available;
      }
    }
  }

  // -----------------------------------------------------------------
  // setVmResourceSet

  /** A VM's resource-set reference: undefined, null, or a set id. */
  datatype SetRef = Undef | Null | Id(id: string)

  /** What `setVmResourceSet` does once it goes ahead. */
  datatype Move = NoOp | Move(allocateIn: Option<string>, releaseFrom: Option<SetRef>, stored: SetRef, removeAcls: bool, shareIn: Option<string>)

  function SetVmResourceSet(previous: SetRef, target: SetRef): (r: Move)
    ensures r.NoOp? <==> target == previous || (previous.Undef? && target.Null?)
    ensures r.Move? ==> (r.allocateIn.Some? <==> target.Id?) && (target.Id? ==> r.allocateIn.value == target.id)
    ensures r.Move? ==> (r.releaseFrom.Some? <==> !previous.Undef?) && (!previous.Undef? ==> r.releaseFrom.value == previous)
    ensures r.Move? ==> r.stored != Undef && (target != Undef ==> r.stored == target)
    ensures r.Move? ==> r.removeAcls == !previous.Undef? && r.shareIn == r.allocateIn
  {
    if target == previous || (previous.Undef? && target.Null?) then NoOp
    else
      var allocateIn := if target.Id? then Some(target.id) else None;
      Move(
        allocateIn,
        if !previous.Undef? then Some(previous) else None,
        if target.Undef? then Null else target,
        !previous.Undef?,
        allocateIn)
  }

  /** Once a VM has been moved to a set (or to none), asking again for the
      reference just stored does nothing. */
  lemma SetVmResourceSetSettles(previous: SetRef, target: SetRef)
    requires target != Undef && SetVmResourceSet(previous, target).Move?
    ensures SetVmResourceSet(SetVmResourceSet(previous, target).stored, target).NoOp?
  {
  }
}
