/**
 * Address-space configuration at device bring-up (`initMemoryManagement`):
 * find the local, private and global address spaces of the machine
 * description by their numerical ids, check their sharing flags on a
 * multi-core machine, and place the local region, the command slot and the
 * global region.
 */
module AddressSpaces {
  import opened Wrappers
  import opened Words
  import opened ExecCommand

  const AsidPrivate: int := 0
  const AsidGlobal: int := 3
  const AsidLocal: int := 4
  const AsidConstant: int := 5

  /** Bytes at the start of the global space that are never allocated; the
      command slot sits right after them. */
  const UnallocatedGlobalSpace: int := 2048
  /** Bytes of the local space kept back when it doubles as private space. */
  const UnallocatedLocalSpace: int := 2048

  /** One address space of the machine description; `end` is its last
      address as the description gives it. */
  datatype AddressSpace = AddressSpace(ids: set<int>, start: int, end: int, shared: bool)

  datatype Role = LocalRole | PrivateRole | GlobalRole

  predicate HasRole(a: AddressSpace, role: Role)
  {
    match role
    case LocalRole => AsidLocal in a.ids
    case PrivateRole => AsidPrivate in a.ids
    case GlobalRole => AsidGlobal in a.ids && AsidConstant in a.ids
  }

  /** The space the scan binds to a role: the last one carrying it. */
  function LastWithRole(spaces: seq<AddressSpace>, role: Role): (r: Option<nat>)
    ensures r.Some? ==>
      && r.value < |spaces| && HasRole(spaces[r.value], role)
      && forall j :: r.value < j < |spaces| ==> !HasRole(spaces[j], role)
    ensures r.None? ==> forall j :: 0 <= j < |spaces| ==> !HasRole(spaces[j], role)
  {
    if spaces == [] then None
    else if HasRole(spaces[|spaces| - 1], role) then Some(|spaces| - 1)
    else LastWithRole(spaces[..|spaces| - 1], role)
  }

  datatype ConfigError =
    | NoLocalSpace
    | LocalSpaceShared
    | NoPrivateSpace
    | PrivateSpaceShared
    | NoGlobalSpace
    | GlobalSpaceNotShared
    | LocalSpaceTooSmall
    | GlobalSpaceTooSmall

  /** What a successful configuration publishes. */
  datatype MemConfig = MemConfig(
    localAs: nat, privateAs: nat, globalAs: nat,
    localMemSize: int, globalMemSize: int, maxMemAllocSize: int,
    localMemStart: int, globalMemStart: int, commandQueueAddr: int)

  /** The local size as the driver stores it: in a C `int`. */
  function LocalSize(spaces: seq<AddressSpace>, l: nat, p: nat): int
    requires l < |spaces|
  {
    if p == l then Int32(spaces[l].end - spaces[l].start - UnallocatedLocalSpace)
    else Int32(spaces[l].end - spaces[l].start)
  }

  /** As written: the global size is measured from the LOCAL space's start,
      and stored in a C `int`. */
  function GlobalSize(spaces: seq<AddressSpace>, l: nat, g: nat): int
    requires l < |spaces| && g < |spaces|
  {
    Int32(spaces[g].end - spaces[l].start - UnallocatedGlobalSpace)
  }

  /** The whole configuration step; `multiCore` is `isMultiCoreMachine()`.
      What it publishes is two sizes that fit a C `int` and are not
      negative, the global size doubling as the largest allocation, and a
      global region that starts one command record after the slot. */
  function Configure(spaces: seq<AddressSpace>, multiCore: bool): (r: Result<MemConfig, ConfigError>)
    ensures r.Success? ==>
      && 0 <= r.value.localMemSize < 0x8000_0000
      && 0 <= r.value.globalMemSize < 0x8000_0000
      && r.value.maxMemAllocSize == r.value.globalMemSize
      && r.value.globalMemStart == r.value.commandQueueAddr + CmdSize
  {
    var l := LastWithRole(spaces, LocalRole);
    var p := LastWithRole(spaces, PrivateRole);
    var g := LastWithRole(spaces, GlobalRole);
    if l.None? then Failure(NoLocalSpace)
    else if multiCore && spaces[l.value].shared then Failure(LocalSpaceShared)
    else if p.None? then Failure(NoPrivateSpace)
    else if multiCore && spaces[p.value].shared then Failure(PrivateSpaceShared)
    else if g.None? then Failure(NoGlobalSpace)
    else if multiCore && !spaces[g.value].shared then Failure(GlobalSpaceNotShared)
    else
      var localSize := LocalSize(spaces, l.value, p.value);
      var globalSize := GlobalSize(spaces, l.value, g.value);
      if localSize < 0 then Failure(LocalSpaceTooSmall)
      else if globalSize < 0 then Failure(GlobalSpaceTooSmall)
      else
        var slot := spaces[g.value].start + UnallocatedGlobalSpace;
        Success(MemConfig(l.value, p.value, g.value, localSize, globalSize, globalSize,
                          spaces[l.value].start, slot + CmdSize, slot))
  }

  /** A machine description lacking any one role is refused. */
  lemma MissingRoleFails(spaces: seq<AddressSpace>, multiCore: bool, role: Role)
    requires forall j :: 0 <= j < |spaces| ==> !HasRole(spaces[j], role)
    ensures Configure(spaces, multiCore).Failure?
    ensures role == LocalRole ==> Configure(spaces, multiCore) == Failure(NoLocalSpace)
  {
  }

  /** On a multi-core machine, a shared local or private space, or an
      unshared global space, is refused. */
  lemma SharingMismatchFails(spaces: seq<AddressSpace>, l: nat, p: nat, g: nat)
    requires l < |spaces| && p < |spaces| && g < |spaces|
    requires LastWithRole(spaces, LocalRole) == Some(l)
    requires LastWithRole(spaces, PrivateRole) == Some(p)
    requires LastWithRole(spaces, GlobalRole) == Some(g)
    requires spaces[l].shared || spaces[p].shared || !spaces[g].shared
    ensures Configure(spaces, true).Failure?
  {
  }

  /** Configuration succeeds exactly when all three roles are present, the
      sharing flags suit the machine, and neither size is negative. */
  lemma ConfigureSucceedsExactlyWhen(spaces: seq<AddressSpace>, multiCore: bool)
    ensures Configure(spaces, multiCore).Success? <==>
      exists l: nat, p: nat, g: nat ::
        && l < |spaces| && p < |spaces| && g < |spaces|
        && LastWithRole(spaces, LocalRole) == Some(l)
        && LastWithRole(spaces, PrivateRole) == Some(p)
        && LastWithRole(spaces, GlobalRole) == Some(g)
        && (multiCore ==> !spaces[l].shared && !spaces[p].shared && spaces[g].shared)
        && LocalSize(spaces, l, p) >= 0 && GlobalSize(spaces, l, g) >= 0
  {
    var l := LastWithRole(spaces, LocalRole);
    var p := LastWithRole(spaces, PrivateRole);
    var g := LastWithRole(spaces, GlobalRole);
    if Configure(spaces, multiCore).Success? {
      assert l.Some? && p.Some? && g.Some?;
      var l0, p0, g0 := l.value, p.value, g.value;
      assert LocalSize(spaces, l0, p0) >= 0 && GlobalSize(spaces, l0, g0) >= 0;
    }
  }

  /** A successful configuration binds spaces carrying the roles, sizes the
      local region (less the reservation exactly when it is also the private
      space) and the global region, reports the global size as the largest
      allocation, and puts the command slot right after the global
      reservation with the global region starting one record later, so the
      slot is never handed out. */
  lemma ConfiguredLayout(spaces: seq<AddressSpace>, multiCore: bool)
    requires Configure(spaces, multiCore).Success?
    ensures
      var c := Configure(spaces, multiCore).value;
      && c.localAs < |spaces| && c.privateAs < |spaces| && c.globalAs < |spaces|
      && HasRole(spaces[c.localAs], LocalRole)
      && HasRole(spaces[c.privateAs], PrivateRole)
      && HasRole(spaces[c.globalAs], GlobalRole)
      && var len := spaces[c.localAs].end - spaces[c.localAs].start;
      && (c.privateAs == c.localAs ==> c.localMemSize == Int32(len - UnallocatedLocalSpace))
      && (c.privateAs != c.localAs ==> c.localMemSize == Int32(len))
      && c.localMemSize >= 0 && c.globalMemSize >= 0
      && c.globalMemSize == Int32(spaces[c.globalAs].end - spaces[c.localAs].start - UnallocatedGlobalSpace)
      && c.maxMemAllocSize == c.globalMemSize
      && c.localMemStart == spaces[c.localAs].start
      && c.commandQueueAddr == spaces[c.globalAs].start + UnallocatedGlobalSpace
      && c.globalMemStart == c.commandQueueAddr + CmdSize
  {
  }

  /** On a single-core machine the sharing flags play no part. */
  lemma SingleCoreIgnoresSharing(spaces: seq<AddressSpace>, flags: seq<bool>)
    requires |flags| == |spaces|
    ensures Configure(spaces, false) ==
            Configure(seq(|spaces|, i requires 0 <= i < |spaces| => spaces[i].(shared := flags[i])), false)
  {
    var spaces' := seq(|spaces|, i requires 0 <= i < |spaces| => spaces[i].(shared := flags[i]));
    forall role: Role ensures LastWithRole(spaces, role) == LastWithRole(spaces', role) {
      SameIdsSameRoles(spaces, spaces', role);
    }
  }

  lemma {:induction false} SameIdsSameRoles(s: seq<AddressSpace>, t: seq<AddressSpace>, role: Role)
    requires |s| == |t|
    requires forall i :: 0 <= i < |s| ==> s[i].ids == t[i].ids && s[i].start == t[i].start && s[i].end == t[i].end
    ensures LastWithRole(s, role) == LastWithRole(t, role)
    decreases |s|
  {
    if s != [] {
      SameIdsSameRoles(s[..|s| - 1], t[..|t| - 1], role);
    }
  }

  /** As written, with the local space below the global one, the global
      region runs past the end of the global address space. */
  lemma GlobalRegionOverrunsGlobalSpace()
    ensures
      var spaces := [AddressSpace({AsidLocal, AsidPrivate}, 0, 8192, false),
                     AddressSpace({AsidGlobal, AsidConstant}, 65536, 131072, false)];
      var c := Configure(spaces, false);
      c.Success? && c.value.globalMemStart + c.value.globalMemSize > spaces[1].end
  {
    var spaces := [AddressSpace({AsidLocal, AsidPrivate}, 0, 8192, false),
                   AddressSpace({AsidGlobal, AsidConstant}, 65536, 131072, false)];
    assert HasRole(spaces[0], LocalRole) && HasRole(spaces[0], PrivateRole) && HasRole(spaces[1], GlobalRole);
    assert !HasRole(spaces[1], LocalRole) && !HasRole(spaces[1], PrivateRole);
  }

  /** A global space reaching to 0xFFFFFFFF above a local space at 0 gives a
      size past the top of a C `int`; cut to 32 bits it is negative, so the
      driver refuses the machine as having too little global memory. */
  lemma GlobalSizeNarrowedAborts()
    ensures
      var spaces := [AddressSpace({AsidLocal, AsidPrivate}, 0, 8192, false),
                     AddressSpace({AsidGlobal, AsidConstant}, 65536, 0xFFFF_FFFF, false)];
      && GlobalSize(spaces, 0, 1) == -2049
      && Configure(spaces, false) == Failure(GlobalSpaceTooSmall)
  {
    var spaces := [AddressSpace({AsidLocal, AsidPrivate}, 0, 8192, false),
                   AddressSpace({AsidGlobal, AsidConstant}, 65536, 0xFFFF_FFFF, false)];
    assert HasRole(spaces[0], LocalRole) && HasRole(spaces[0], PrivateRole) && HasRole(spaces[1], GlobalRole);
    assert !HasRole(spaces[1], LocalRole) && !HasRole(spaces[1], PrivateRole);
  }
}
