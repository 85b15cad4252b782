/** The systemless mount of the overlayfs backend: the module layers grouped
    per partition, and the rules that skip a partition. */
module Partitions {
  import opened Wrappers
  import opened Strs
  import opened FsView

  const ModulesDir: string := "/data/adb/modules"
  const SystemRwDir: string := "/data/adb/meta-hybrid/rw"

  /** The partitions besides `system` whose module layers are collected. */
  const FixedPartitions: seq<string> := ["vendor", "product", "system_ext", "odm", "oem"]

  function ModulePath(name: string): string {
    PathJoin(ModulesDir, name)
  }

  /** A module directory that takes part: a directory, enabled and wanted
      when it has a file name, and without a `skip_mount` marker. */
  predicate Eligible(fs: FsView, ids: set<string>, name: string) {
    var moduleDir := ModulePath(name);
    && fs.IsDir(moduleDir)
    && (FileName(moduleDir).Some? ==>
          && !fs.Exists(PathJoin(PathJoin(ModulesDir, FileName(moduleDir).value), "disable"))
          && FileName(moduleDir).value in ids)
    && !fs.Exists(PathJoin(moduleDir, "skip_mount"))
  }

  /** The images under `f` of the elements of `xs` that `keep` accepts, in order. */
  function Pick(xs: seq<string>, f: string -> string, keep: string -> bool): seq<string> {
    if xs == [] then []
    else Pick(xs[..|xs| - 1], f, keep) + (if keep(xs[|xs| - 1]) then [f(xs[|xs| - 1])] else [])
  }

  /** The module from which a picked element comes. */
  lemma {:induction false} PickSource(xs: seq<string>, f: string -> string, keep: string -> bool, x: string)
    returns (y: string)
    requires x in Pick(xs, f, keep)
    ensures y in xs && keep(y) && x == f(y)
  {
    var init := xs[..|xs| - 1];
    if x in Pick(init, f, keep) {
      y := PickSource(init, f, keep, x);
      assert y in xs by { assert xs == init + [xs[|xs| - 1]]; }
    } else {
      y := xs[|xs| - 1];
    }
  }

  /** Every accepted element is picked. */
  lemma {:induction false} PickHas(xs: seq<string>, f: string -> string, keep: string -> bool, y: string)
    requires y in xs && keep(y)
    ensures f(y) in Pick(xs, f, keep)
  {
    var init := xs[..|xs| - 1];
    if y != xs[|xs| - 1] {
      assert y in init by { assert xs == init + [xs[|xs| - 1]]; }
      PickHas(init, f, keep, y);
    }
  }

  /** The `sub` directories of the eligible modules among `names`, in listing order. */
  function Lowers(fs: FsView, ids: set<string>, names: seq<string>, sub: string): seq<string> {
    Pick(names, name => PathJoin(ModulePath(name), sub),
         name => Eligible(fs, ids, name) && fs.IsDir(PathJoin(ModulePath(name), sub)))
  }

  lemma LowersSnoc(fs: FsView, ids: set<string>, names: seq<string>, name: string, sub: string)
    ensures Lowers(fs, ids, names + [name], sub) == Lowers(fs, ids, names, sub)
      + (if Eligible(fs, ids, name) && fs.IsDir(PathJoin(ModulePath(name), sub)) then [PathJoin(ModulePath(name), sub)] else [])
  {
    assert (names + [name])[..|names|] == names;
  }

  /** A layer is listed exactly when it is the `sub` directory of an eligible
      module and is a directory. */
  lemma LowersMeans(fs: FsView, ids: set<string>, names: seq<string>, sub: string, x: string)
    ensures x in Lowers(fs, ids, names, sub) <==>
      exists name :: name in names && Eligible(fs, ids, name) && x == PathJoin(ModulePath(name), sub) && fs.IsDir(x)
  {
    var f := name => PathJoin(ModulePath(name), sub);
    var keep := name => Eligible(fs, ids, name) && fs.IsDir(PathJoin(ModulePath(name), sub));
    if x in Lowers(fs, ids, names, sub) {
      var name := PickSource(names, f, keep, x);
    }
    if exists name :: name in names && Eligible(fs, ids, name) && x == PathJoin(ModulePath(name), sub) && fs.IsDir(x) {
      var name :| name in names && Eligible(fs, ids, name) && x == PathJoin(ModulePath(name), sub) && fs.IsDir(x);
      PickHas(names, f, keep, name);
    }
  }

  /** The map of partition layer lists, every one starting empty. */
  method InitLowerdirMap(extras: seq<string>) returns (m: map<string, seq<string>>)
    ensures m.Keys == Elems(FixedPartitions) + Elems(extras)
    ensures forall p :: p in m ==> m[p] == []
  {
    m := map[];
    var i := 0;
    while i < |FixedPartitions|
      invariant 0 <= i <= |FixedPartitions|
      invariant m.Keys == Elems(FixedPartitions[..i])
      invariant forall p :: p in m ==> m[p] == []
    {
      assert FixedPartitions[..i + 1] == FixedPartitions[..i] + [FixedPartitions[i]];
      m := m[FixedPartitions[i] := []];
      i := i + 1;
    }
    assert FixedPartitions[..i] == FixedPartitions;
    var j := 0;
    while j < |extras|
      invariant 0 <= j <= |extras|
      invariant m.Keys == Elems(FixedPartitions) + Elems(extras[..j])
      invariant forall p :: p in m ==> m[p] == []
    {
      assert extras[..j + 1] == extras[..j] + [extras[j]];
      m := m[extras[j] := []];
      j := j + 1;
    }
    assert extras[..j] == extras;
  }

  /** The inner loop over the fixed partitions for one module. */
  method AddPartitionLayers(fs: FsView, moduleDir: string, m0: map<string, seq<string>>) returns (m: map<string, seq<string>>)
    ensures m.Keys == m0.Keys
    ensures forall p :: p in m ==>
      m[p] == m0[p] + (if p in FixedPartitions && fs.IsDir(PathJoin(moduleDir, p)) then [PathJoin(moduleDir, p)] else [])
  {
    m := m0;
    var i := 0;
    while i < |FixedPartitions|
      invariant 0 <= i <= |FixedPartitions|
      invariant m.Keys == m0.Keys
      invariant forall p :: p in m ==>
        m[p] == m0[p] + (if p in FixedPartitions[..i] && fs.IsDir(PathJoin(moduleDir, p)) then [PathJoin(moduleDir, p)] else [])
    {
      var part := FixedPartitions[i];
      var partPath := PathJoin(moduleDir, part);
      assert forall p :: p in FixedPartitions[..i + 1] <==> p in FixedPartitions[..i] || p == part by {
        assert FixedPartitions[..i + 1] == FixedPartitions[..i] + [part];
      }
      assert part !in FixedPartitions[..i];
      if fs.IsDir(partPath) && part in m {
        m := m[part := m[part] + [partPath]];
      }
      i := i + 1;
    }
    assert FixedPartitions[..i] == FixedPartitions;
  }

  /** What `mount_partition` does with one partition. */
  datatype PartitionMount =
    | Skipped
    | OverlayMount(target: string, lowerdirs: seq<string>, workdir: Option<string>, upperdir: Option<string>)

  /** `mount_partition`: an empty layer list or a partition that is a symlink
      is skipped; the read-write directories are used when the read-write
      root exists. */
  function MountPartition(fs: FsView, name: string, lowerdir: seq<string>): (r: PartitionMount)
    ensures r.Skipped? <==> lowerdir == [] || fs.IsSymlink("/" + name)
    ensures r.OverlayMount? ==> r.target == "/" + name && r.lowerdirs == lowerdir
    ensures r.OverlayMount? ==> (r.workdir.Some? <==> fs.Exists(SystemRwDir)) && (r.upperdir.Some? <==> fs.Exists(SystemRwDir))
    ensures r.OverlayMount? && fs.Exists(SystemRwDir) ==>
      r.workdir.value == PathJoin(PathJoin(SystemRwDir, name), "workdir")
      && r.upperdir.value == PathJoin(PathJoin(SystemRwDir, name), "upperdir")
  {
    if lowerdir == [] then Skipped
    else if fs.IsSymlink("/" + name) then Skipped
    else if fs.Exists(SystemRwDir) then
      OverlayMount("/" + name, lowerdir, Some(PathJoin(PathJoin(SystemRwDir, name), "workdir")),
                   Some(PathJoin(PathJoin(SystemRwDir, name), "upperdir")))
    else OverlayMount("/" + name, lowerdir, None, None)
  }

  /** The layer lists gathered from the first `names` of the listing. */
  ghost predicate Gathered(fs: FsView, ids: set<string>, extras: seq<string>, names: seq<string>,
                           system: seq<string>, parts: map<string, seq<string>>) {
    && system == Lowers(fs, ids, names, "system")
    && parts.Keys == Elems(FixedPartitions) + Elems(extras)
    && forall p :: p in parts ==> parts[p] == if p in FixedPartitions then Lowers(fs, ids, names, p) else []
  }

  /** A partition named only on the command line keeps an empty layer list,
      so `mount_partition` skips it; an extra named `system` therefore does
      not mount `/system` a second time. */
  lemma ExtraPartitionSkipped(fs: FsView, ids: set<string>, extras: seq<string>, names: seq<string>,
                              system: seq<string>, parts: map<string, seq<string>>, p: string)
    requires Gathered(fs, ids, extras, names, system, parts)
    requires p in extras && p !in FixedPartitions
    ensures p in parts && parts[p] == []
    ensures MountPartition(fs, p, parts[p]) == Skipped
  {
    assert p in Elems(extras);
  }

  lemma GatherStep(fs: FsView, ids: set<string>, extras: seq<string>, names: seq<string>, name: string,
                   system: seq<string>, parts: map<string, seq<string>>, system': seq<string>, parts': map<string, seq<string>>)
    requires Gathered(fs, ids, extras, names, system, parts)
    requires system' == system + (if Eligible(fs, ids, name) && fs.IsDir(PathJoin(ModulePath(name), "system"))
                                  then [PathJoin(ModulePath(name), "system")] else [])
    requires parts'.Keys == parts.Keys
    requires forall p :: p in parts' ==> (parts'[p] == parts[p] +
      (if Eligible(fs, ids, name) && p in FixedPartitions && fs.IsDir(PathJoin(ModulePath(name), p))
       then [PathJoin(ModulePath(name), p)] else []))
    ensures Gathered(fs, ids, extras, names + [name], system', parts')
  {
    LowersSnoc(fs, ids, names, name, "system");
    forall p | p in parts'
      ensures parts'[p] == if p in FixedPartitions then Lowers(fs, ids, names + [name], p) else []
    {
      LowersSnoc(fs, ids, names, name, p);
    }
  }

  /** The loop over the module directory's entries. */
  lemma SliceSnoc(s: seq<string>, i: nat)
    requires i < |s|
    ensures s[..i + 1] == s[..i] + [s[i]]
  {
  }

  lemma SliceAll(s: seq<string>)
    ensures s[..|s|] == s
  {
  }

  /** GatherStep at the `i`-th entry of the listing. */
  lemma GatherStepAt(fs: FsView, ids: set<string>, extras: seq<string>, names: seq<string>, i: nat,
                     system: seq<string>, parts: map<string, seq<string>>, system': seq<string>, parts': map<string, seq<string>>)
    requires i < |names|
    requires Gathered(fs, ids, extras, names[..i], system, parts)
    requires system' == system + (if Eligible(fs, ids, names[i]) && fs.IsDir(PathJoin(ModulePath(names[i]), "system"))
                                  then [PathJoin(ModulePath(names[i]), "system")] else [])
    requires parts'.Keys == parts.Keys
    requires forall p :: p in parts' ==> (parts'[p] == parts[p] +
      (if Eligible(fs, ids, names[i]) && p in FixedPartitions && fs.IsDir(PathJoin(ModulePath(names[i]), p))
       then [PathJoin(ModulePath(names[i]), p)] else []))
    ensures Gathered(fs, ids, extras, names[..i + 1], system', parts')
  {
    SliceSnoc(names, i);
    GatherStep(fs, ids, extras, names[..i], names[i], system, parts, system', parts');
  }

  lemma GatheredStart(fs: FsView, ids: set<string>, extras: seq<string>, names: seq<string>,
                      parts: map<string, seq<string>>)
    requires parts.Keys == Elems(FixedPartitions) + Elems(extras)
    requires forall p :: p in parts ==> parts[p] == []
    ensures Gathered(fs, ids, extras, names[..0], [], parts)
  {
    assert names[..0] == [];
  }

  method GatherLowers(fs: FsView, ids: set<string>, extras: seq<string>, names: seq<string>)
    returns (system: seq<string>, parts: map<string, seq<string>>)
    ensures Gathered(fs, ids, extras, names, system, parts)
  {
    system := [];
    parts := InitLowerdirMap(extras);
    GatheredStart(fs, ids, extras, names, parts);
    var i := 0;
    while i < |names|
      invariant 0 <= i <= |names|
      invariant Gathered(fs, ids, extras, names[..i], system, parts)
    {
      var name := names[i];
      var system', parts' := GatherModule(fs, ids, name, system, parts);
      GatherStepAt(fs, ids, extras, names, i, system, parts, system', parts');
      system, parts := system', parts';
      i := i + 1;
    }
    SliceAll(names);
  }

  /** One entry of the listing: an eligible module adds its `system`
      directory and its partition directories to the lists. */
  method GatherModule(fs: FsView, ids: set<string>, name: string, system: seq<string>, parts: map<string, seq<string>>)
    returns (system': seq<string>, parts': map<string, seq<string>>)
    ensures system' == system + (if Eligible(fs, ids, name) && fs.IsDir(PathJoin(ModulePath(name), "system"))
                                 then [PathJoin(ModulePath(name), "system")] else [])
    ensures parts'.Keys == parts.Keys
    ensures forall p :: p in parts' ==> (parts'[p] == parts[p] +
      (if Eligible(fs, ids, name) && p in FixedPartitions && fs.IsDir(PathJoin(ModulePath(name), p))
       then [PathJoin(ModulePath(name), p)] else []))
  {
    var moduleDir := ModulePath(name);
    system', parts' := system, parts;
    if Eligible(fs, ids, name) {
      var moduleSystem := PathJoin(moduleDir, "system");
      if fs.IsDir(moduleSystem) {
        system' := system + [moduleSystem];
      }
      parts' := AddPartitionLayers(fs, moduleDir, parts);
    }
  }

  /** `mount_systemlessly`. `listing` is the module directory's entries that
      could be read, `None` when it cannot be opened. Partition mounts are
      attempted for `system` first and then for every key of the map, in the
      map's unspecified order; their failures are only logged. */
  method MountSystemlessly(fs: FsView, ids: set<string>, extras: seq<string>, listing: Option<seq<string>>)
    returns (r: Outcome, system: seq<string>, parts: map<string, seq<string>>, order: seq<string>, mounts: seq<PartitionMount>)
    ensures r.Fail? <==> listing.None?
    ensures listing.Some? ==>
      && system == Lowers(fs, ids, listing.value, "system")
      && parts.Keys == Elems(FixedPartitions) + Elems(extras)
      && (forall p :: p in parts ==> parts[p] == if p in FixedPartitions then Lowers(fs, ids, listing.value, p) else [])
      && |order| >= 1 && order[0] == "system" && Elems(order[1..]) == parts.Keys
      && (forall a, b :: 1 <= a < b < |order| ==> order[a] != order[b])
      && |mounts| == |order|
      && mounts[0] == MountPartition(fs, "system", system)
      && (forall i :: 1 <= i < |order| ==> mounts[i] == MountPartition(fs, order[i], parts[order[i]]))
  {
    system, parts, order, mounts := [], map[], [], [];
    if listing.None? {
      r := Fail("open " + ModulesDir + " failed");
      return;
    }
    system, parts := GatherLowers(fs, ids, extras, listing.value);
    var keys := Enumerate(parts.Keys);
    order := ["system"] + keys;
    assert order[1..] == keys;
    mounts := seq(|order|, j requires 0 <= j < |order| reads {} =>
      if j == 0 then MountPartition(fs, "system", system) else MountPartition(fs, order[j], parts[order[j]]));
    r := Pass;
  }

  /** A partition is overlaid exactly when it is not a symlink and some
      eligible module carries a directory for it. */
  lemma PartitionMountedIff(fs: FsView, ids: set<string>, names: seq<string>, p: string)
    ensures MountPartition(fs, p, Lowers(fs, ids, names, p)).OverlayMount? <==>
      !fs.IsSymlink("/" + p)
      && exists name :: name in names && Eligible(fs, ids, name) && fs.IsDir(PathJoin(ModulePath(name), p))
  {
    var ls := Lowers(fs, ids, names, p);
    if ls != [] {
      LowersMeans(fs, ids, names, p, ls[0]);
    }
    if exists name :: name in names && Eligible(fs, ids, name) && fs.IsDir(PathJoin(ModulePath(name), p)) {
      var name :| name in names && Eligible(fs, ids, name) && fs.IsDir(PathJoin(ModulePath(name), p));
      LowersMeans(fs, ids, names, p, PathJoin(ModulePath(name), p));
    }
  }
}
