/** The mount planner: which module directories become overlay layers of
    which partition, which modules go to magic mount, and which overlay
    operations are issued. */
module Planner {
  import opened Wrappers
  import opened Strs
  import opened FsView
  import Config

  /** The partitions every plan considers, before the configured extra ones. */
  const BuiltinPartitions: seq<string> := ["system", "vendor", "product", "system_ext", "odm", "oem", "apex"]

  /** A module of the inventory. */
  datatype Module = Module(id: string, sourcePath: string, mode: string)

  /** One overlay mount: the resolved target, its layers in module order, and
      the partition it was planned for. */
  datatype OverlayOp = OverlayOp(target: string, lowerdirs: seq<string>, partitionName: string)

  datatype MountPlan = MountPlan(
    overlayOps: seq<OverlayOp>,
    magicModulePaths: seq<string>,
    overlayModuleIds: seq<string>,
    magicModuleIds: seq<string>)

  /** `has_files`: the directory can be read and yields at least one entry. */
  predicate HasFiles(fs: FsView, p: string) {
    fs.HasEntries(p)
  }

  /** Some partition directory under `base` exists and has an entry. */
  predicate HasMeaningfulContent(fs: FsView, base: string, parts: seq<string>) {
    exists p :: p in parts && fs.Exists(PathJoin(base, p)) && HasFiles(fs, PathJoin(base, p))
  }

  /** `has_meaningful_content`: the partitions are tried in order and the
      first one with content answers. */
  method CheckMeaningfulContent(fs: FsView, base: string, parts: seq<string>) returns (b: bool)
    ensures b == HasMeaningfulContent(fs, base, parts)
  {
    var i := 0;
    while i < |parts|
      invariant 0 <= i <= |parts|
      invariant forall p :: p in parts[..i] ==> !(fs.Exists(PathJoin(base, p)) && HasFiles(fs, PathJoin(base, p)))
    {
      var p := PathJoin(base, parts[i]);
      if fs.Exists(p) && HasFiles(fs, p) {
        return true;
      }
      assert parts[..i + 1] == parts[..i] + [parts[i]];
      i := i + 1;
    }
    assert parts[..i] == parts;
    return false;
  }

  /** Where a non-magic module's synced files live. */
  function ContentPath(storageRoot: string, m: Module): string {
    PathJoin(storageRoot, m.id)
  }

  /** A non-magic module whose synced content exists provides a layer for
      `part` when its `part` directory is a directory with an entry. */
  predicate Contributes(fs: FsView, storageRoot: string, m: Module, part: string) {
    && m.mode != "magic"
    && fs.Exists(ContentPath(storageRoot, m))
    && fs.IsDir(PathJoin(ContentPath(storageRoot, m), part))
    && HasFiles(fs, PathJoin(ContentPath(storageRoot, m), part))
  }

  /** The module takes part in the overlay: some target partition gets a
      layer from it. */
  predicate Participates(fs: FsView, storageRoot: string, m: Module, parts: seq<string>) {
    exists p :: p in parts && Contributes(fs, storageRoot, m, p)
  }

  /** The layers module `m` pushes onto `part`'s list: one per occurrence of
      `part` in the target list. */
  function Pushes(fs: FsView, storageRoot: string, m: Module, parts: seq<string>, part: string): seq<string> {
    if parts == [] then []
    else
      var last := parts[|parts| - 1];
      Pushes(fs, storageRoot, m, parts[..|parts| - 1], part)
      + (if last == part && Contributes(fs, storageRoot, m, part)
         then [PathJoin(ContentPath(storageRoot, m), part)] else [])
  }

  /** A module pushes onto `part` exactly when `part` is a target and the
      module contributes to it, and every layer it pushes is its `part`
      directory. */
  lemma {:induction false} PushesShape(fs: FsView, storageRoot: string, m: Module, parts: seq<string>, part: string)
    ensures Pushes(fs, storageRoot, m, parts, part) != [] <==> part in parts && Contributes(fs, storageRoot, m, part)
    ensures forall x :: x in Pushes(fs, storageRoot, m, parts, part) ==> x == PathJoin(ContentPath(storageRoot, m), part)
  {
    if parts != [] {
      var init := parts[..|parts| - 1];
      PushesShape(fs, storageRoot, m, init, part);
      assert parts == init + [parts[|parts| - 1]];
    }
  }

  /** The layer list of `part` after all `modules`, in module order. */
  function Layers(fs: FsView, storageRoot: string, modules: seq<Module>, parts: seq<string>, part: string): seq<string> {
    if modules == [] then []
    else Layers(fs, storageRoot, modules[..|modules| - 1], parts, part)
         + Pushes(fs, storageRoot, modules[|modules| - 1], parts, part)
  }

  /** Every layer of `part` is the `part` directory of a module that
      contributes to it, and a contributing module always adds one. */
  lemma LayersFromContributors(fs: FsView, storageRoot: string, modules: seq<Module>,
                               parts: seq<string>, part: string)
    ensures forall x :: x in Layers(fs, storageRoot, modules, parts, part) ==>
      exists m :: m in modules && Contributes(fs, storageRoot, m, part) && x == PathJoin(ContentPath(storageRoot, m), part)
    ensures Layers(fs, storageRoot, modules, parts, part) != [] <==>
      part in parts && exists m :: m in modules && Contributes(fs, storageRoot, m, part)
  {
    forall x | x in Layers(fs, storageRoot, modules, parts, part)
      ensures exists m :: m in modules && Contributes(fs, storageRoot, m, part)
                          && x == PathJoin(ContentPath(storageRoot, m), part)
    {
      var m := LayerProvider(fs, storageRoot, modules, parts, part, x);
    }
    LayersNonEmpty(fs, storageRoot, modules, parts, part);
  }

  /** The module a layer of `part` comes from. */
  lemma {:induction false} LayerProvider(fs: FsView, storageRoot: string, modules: seq<Module>,
                                         parts: seq<string>, part: string, x: string)
    returns (m: Module)
    requires x in Layers(fs, storageRoot, modules, parts, part)
    ensures m in modules && Contributes(fs, storageRoot, m, part) && x == PathJoin(ContentPath(storageRoot, m), part)
  {
    var init := modules[..|modules| - 1];
    var last := modules[|modules| - 1];
    if x in Layers(fs, storageRoot, init, parts, part) {
      m := LayerProvider(fs, storageRoot, init, parts, part, x);
      assert m in modules by { assert modules == init + [last]; }
    } else {
      PushesShape(fs, storageRoot, last, parts, part);
      m := last;
    }
  }

  /** The layer list of `part` is non-empty exactly when `part` is a target
      and some module contributes to it. */
  lemma {:induction false} LayersNonEmpty(fs: FsView, storageRoot: string, modules: seq<Module>,
                                          parts: seq<string>, part: string)
    ensures Layers(fs, storageRoot, modules, parts, part) != [] <==>
      part in parts && exists m :: m in modules && Contributes(fs, storageRoot, m, part)
  {
    if modules != [] {
      var init := modules[..|modules| - 1];
      var last := modules[|modules| - 1];
      LayersNonEmpty(fs, storageRoot, init, parts, part);
      PushesShape(fs, storageRoot, last, parts, part);
      assert modules == init + [last];
      if exists m :: m in modules && Contributes(fs, storageRoot, m, part) {
        var m :| m in modules && Contributes(fs, storageRoot, m, part);
        if m != last {
          assert m in init;
        }
      }
    }
  }

  /** The ids of the modules that take part in the overlay. */
  function OverlayIds(fs: FsView, storageRoot: string, modules: seq<Module>, parts: seq<string>): set<string> {
    set m | m in modules && Participates(fs, storageRoot, m, parts) :: m.id
  }

  /** Magic-mode modules with content in some target partition. */
  predicate MagicCandidate(fs: FsView, m: Module, parts: seq<string>) {
    m.mode == "magic" && HasMeaningfulContent(fs, m.sourcePath, parts)
  }

  function MagicIds(fs: FsView, modules: seq<Module>, parts: seq<string>): set<string> {
    set m | m in modules && MagicCandidate(fs, m, parts) :: m.id
  }

  function MagicPaths(fs: FsView, modules: seq<Module>, parts: seq<string>): set<string> {
    set m | m in modules && MagicCandidate(fs, m, parts) :: m.sourcePath
  }

  lemma LayersSnoc(fs: FsView, storageRoot: string, done: seq<Module>, m: Module, parts: seq<string>, part: string)
    ensures Layers(fs, storageRoot, done + [m], parts, part)
         == Layers(fs, storageRoot, done, parts, part) + Pushes(fs, storageRoot, m, parts, part)
  {
    assert (done + [m])[..|done|] == done;
  }

  lemma PushesSnoc(fs: FsView, storageRoot: string, m: Module, parts: seq<string>, j: nat, part: string)
    requires j < |parts|
    ensures Pushes(fs, storageRoot, m, parts[..j + 1], part)
         == Pushes(fs, storageRoot, m, parts[..j], part)
            + (if parts[j] == part && Contributes(fs, storageRoot, m, part)
               then [PathJoin(ContentPath(storageRoot, m), part)] else [])
  {
    assert parts[..j + 1][..j] == parts[..j];
  }

  lemma ParticipatesSnoc(fs: FsView, storageRoot: string, m: Module, parts: seq<string>, j: nat)
    requires j < |parts|
    ensures Participates(fs, storageRoot, m, parts[..j + 1])
       <==> Participates(fs, storageRoot, m, parts[..j]) || Contributes(fs, storageRoot, m, parts[j])
  {
    assert parts[..j + 1] == parts[..j] + [parts[j]];
    if Participates(fs, storageRoot, m, parts[..j + 1]) && !Contributes(fs, storageRoot, m, parts[j]) {
      var p :| p in parts[..j + 1] && Contributes(fs, storageRoot, m, p);
      assert p in parts[..j];
    }
  }

  lemma SetsSnoc(fs: FsView, storageRoot: string, done: seq<Module>, m: Module, parts: seq<string>)
    ensures OverlayIds(fs, storageRoot, done + [m], parts)
         == OverlayIds(fs, storageRoot, done, parts) + (if Participates(fs, storageRoot, m, parts) then {m.id} else {})
    ensures MagicIds(fs, done + [m], parts)
         == MagicIds(fs, done, parts) + (if MagicCandidate(fs, m, parts) then {m.id} else {})
    ensures MagicPaths(fs, done + [m], parts)
         == MagicPaths(fs, done, parts) + (if MagicCandidate(fs, m, parts) then {m.sourcePath} else {})
  {
    assert forall x :: x in done + [m] <==> x in done || x == m;
  }

  /** `layers` holds exactly the non-empty layer lists of `done`. */
  ghost predicate LayersOf(fs: FsView, storageRoot: string, done: seq<Module>, parts: seq<string>,
                           layers: map<string, seq<string>>) {
    forall part :: (part in layers <==> Layers(fs, storageRoot, done, parts, part) != [])
                   && (part in layers ==> layers[part] == Layers(fs, storageRoot, done, parts, part))
  }

  /** Appends `layer` to the list of `part`, starting one when there is none. */
  function AddLayer(layers: map<string, seq<string>>, part: string, layer: string): (r: map<string, seq<string>>)
    ensures r.Keys == layers.Keys + {part}
    ensures r[part] == (if part in layers then layers[part] else []) + [layer]
    ensures forall q :: q in layers && q != part ==> r[q] == layers[q]
  {
    layers[part := (if part in layers then layers[part] else []) + [layer]]
  }

  /** `layers` is `layers0` with what `m` pushes for the partitions `ps`. */
  ghost predicate PushedOnto(fs: FsView, storageRoot: string, m: Module, ps: seq<string>,
                             layers0: map<string, seq<string>>, layers: map<string, seq<string>>) {
    forall part :: (part in layers <==> part in layers0 || Pushes(fs, storageRoot, m, ps, part) != [])
                   && (part in layers ==> layers[part] == Accumulated(fs, storageRoot, m, ps, layers0, part))
  }

  ghost function Accumulated(fs: FsView, storageRoot: string, m: Module, parts: seq<string>,
                             layers0: map<string, seq<string>>, part: string): seq<string> {
    (if part in layers0 then layers0[part] else []) + Pushes(fs, storageRoot, m, parts, part)
  }

  /** A module that pushes nothing leaves the lists as they are. */
  lemma SkipModuleStep(fs: FsView, storageRoot: string, done: seq<Module>, m: Module, parts: seq<string>,
                       layers: map<string, seq<string>>)
    requires LayersOf(fs, storageRoot, done, parts, layers)
    requires m.mode == "magic" || !fs.Exists(ContentPath(storageRoot, m))
    ensures LayersOf(fs, storageRoot, done + [m], parts, layers)
  {
    forall part
      ensures (part in layers <==> Layers(fs, storageRoot, done + [m], parts, part) != [])
              && (part in layers ==> layers[part] == Layers(fs, storageRoot, done + [m], parts, part))
    {
      LayersSnoc(fs, storageRoot, done, m, parts, part);
      PushesShape(fs, storageRoot, m, parts, part);
    }
  }

  /** A module's pushes over all partitions extend the lists of `done` to
      those of `done + [m]`. */
  lemma PushModuleStep(fs: FsView, storageRoot: string, done: seq<Module>, m: Module, parts: seq<string>,
                       before: map<string, seq<string>>, after: map<string, seq<string>>)
    requires LayersOf(fs, storageRoot, done, parts, before)
    requires PushedOnto(fs, storageRoot, m, parts, before, after)
    ensures LayersOf(fs, storageRoot, done + [m], parts, after)
  {
    forall part
      ensures (part in after <==> Layers(fs, storageRoot, done + [m], parts, part) != [])
              && (part in after ==> after[part] == Layers(fs, storageRoot, done + [m], parts, part))
    {
      LayersSnoc(fs, storageRoot, done, m, parts, part);
    }
  }

  /** One partition of the inner loop. */
  lemma PushPartitionStep(fs: FsView, storageRoot: string, m: Module, parts: seq<string>, j: nat,
                          layers0: map<string, seq<string>>, layers: map<string, seq<string>>)
    requires j < |parts|
    requires PushedOnto(fs, storageRoot, m, parts[..j], layers0, layers)
    ensures PushedOnto(fs, storageRoot, m, parts[..j + 1], layers0,
      if Contributes(fs, storageRoot, m, parts[j])
      then AddLayer(layers, parts[j], PathJoin(ContentPath(storageRoot, m), parts[j])) else layers)
  {
    var after := if Contributes(fs, storageRoot, m, parts[j])
      then AddLayer(layers, parts[j], PathJoin(ContentPath(storageRoot, m), parts[j])) else layers;
    forall part
      ensures (part in after <==> part in layers0 || Pushes(fs, storageRoot, m, parts[..j + 1], part) != [])
              && (part in after ==> after[part] == Accumulated(fs, storageRoot, m, parts[..j + 1], layers0, part))
    {
      PushPartitionAt(fs, storageRoot, m, parts, j, layers0, layers, part);
    }
  }

  /** `PushPartitionStep` at one partition name. */
  lemma PushPartitionAt(fs: FsView, storageRoot: string, m: Module, parts: seq<string>, j: nat,
                        layers0: map<string, seq<string>>, layers: map<string, seq<string>>, part: string)
    requires j < |parts|
    requires part in layers <==> part in layers0 || Pushes(fs, storageRoot, m, parts[..j], part) != []
    requires part in layers ==> layers[part] == Accumulated(fs, storageRoot, m, parts[..j], layers0, part)
    ensures var after := if Contributes(fs, storageRoot, m, parts[j])
      then AddLayer(layers, parts[j], PathJoin(ContentPath(storageRoot, m), parts[j])) else layers;
      && (part in after <==> part in layers0 || Pushes(fs, storageRoot, m, parts[..j + 1], part) != [])
      && (part in after ==> after[part] == Accumulated(fs, storageRoot, m, parts[..j + 1], layers0, part))
  {
    PushesSnoc(fs, storageRoot, m, parts, j, part);
  }

  /** The first loop of `generate`: every module is classified and its layers
      pushed, partition by partition. */
  method CollectLayers(fs: FsView, storageRoot: string, modules: seq<Module>, parts: seq<string>)
    returns (layers: map<string, seq<string>>, overlayIds: set<string>, magicIds: set<string>, magicPaths: set<string>)
    ensures forall part :: part in layers <==> Layers(fs, storageRoot, modules, parts, part) != []
    ensures forall part :: part in layers ==> layers[part] == Layers(fs, storageRoot, modules, parts, part)
    ensures overlayIds == OverlayIds(fs, storageRoot, modules, parts)
    ensures magicIds == MagicIds(fs, modules, parts)
    ensures magicPaths == MagicPaths(fs, modules, parts)
  {
    layers, overlayIds, magicIds, magicPaths := map[], {}, {}, {};
    var i := 0;
    while i < |modules|
      invariant 0 <= i <= |modules|
      invariant LayersOf(fs, storageRoot, modules[..i], parts, layers)
      invariant overlayIds == OverlayIds(fs, storageRoot, modules[..i], parts)
      invariant magicIds == MagicIds(fs, modules[..i], parts)
      invariant magicPaths == MagicPaths(fs, modules[..i], parts)
    {
      var m := modules[i];
      assert modules[..i + 1] == modules[..i] + [m];
      SetsSnoc(fs, storageRoot, modules[..i], m, parts);
      if m.mode == "magic" {
        SkipModuleStep(fs, storageRoot, modules[..i], m, parts, layers);
        var meaningful := CheckMeaningfulContent(fs, m.sourcePath, parts);
        if meaningful {
          magicPaths := magicPaths + {m.sourcePath};
          magicIds := magicIds + {m.id};
        }
      } else {
        var content := ContentPath(storageRoot, m);
        if fs.Exists(content) {
          ghost var before := layers;
          layers, overlayIds := PushModuleLayers(fs, storageRoot, m, parts, layers, overlayIds);
          PushModuleStep(fs, storageRoot, modules[..i], m, parts, before, layers);
        } else {
          SkipModuleStep(fs, storageRoot, modules[..i], m, parts, layers);
        }
      }
      i := i + 1;
    }
    assert modules[..i] == modules;
  }

  /** The inner loop of `generate` for one non-magic module whose content
      exists: its layers are appended to the lists it contributes to. */
  method PushModuleLayers(fs: FsView, storageRoot: string, m: Module, parts: seq<string>,
                          layers0: map<string, seq<string>>, overlayIds0: set<string>)
    returns (layers: map<string, seq<string>>, overlayIds: set<string>)
    requires m.mode != "magic" && fs.Exists(ContentPath(storageRoot, m))
    ensures PushedOnto(fs, storageRoot, m, parts, layers0, layers)
    ensures overlayIds == if Participates(fs, storageRoot, m, parts) then overlayIds0 + {m.id} else overlayIds0
  {
    layers := layers0;
    var participates := false;
    var content := ContentPath(storageRoot, m);
    var j := 0;
    while j < |parts|
      invariant 0 <= j <= |parts|
      invariant PushedOnto(fs, storageRoot, m, parts[..j], layers0, layers)
      invariant participates <==> Participates(fs, storageRoot, m, parts[..j])
    {
      var part := parts[j];
      var partPath := PathJoin(content, part);
      ParticipatesSnoc(fs, storageRoot, m, parts, j);
      PushPartitionStep(fs, storageRoot, m, parts, j, layers0, layers);
      if fs.IsDir(partPath) && HasFiles(fs, partPath) {
        layers := AddLayer(layers, part, partPath);
        participates := true;
      }
      j := j + 1;
    }
    assert parts[..j] == parts;
    overlayIds := if participates then overlayIds0 + {m.id} else overlayIds0;
  }

  /** Where `/part` leads: it must exist or be a symlink, canonicalise, and
      land on a directory. */
  function ResolveTarget(fs: FsView, part: string): (r: Option<string>)
    ensures r.Some? ==> fs.IsDir(r.value)
  {
    var t := "/" + part;
    if (fs.IsSymlink(t) || fs.Exists(t)) && t in fs.canonical && fs.IsDir(fs.canonical[t])
    then Some(fs.canonical[t]) else None
  }

  /** The second loop of `generate`: one operation per partition with layers
      whose target resolves, in the map's unspecified order. */
  method EmitOps(fs: FsView, layers: map<string, seq<string>>) returns (ops: seq<OverlayOp>)
    ensures forall i :: 0 <= i < |ops| ==>
      ops[i].partitionName in layers && ops[i].lowerdirs == layers[ops[i].partitionName]
      && ResolveTarget(fs, ops[i].partitionName) == Some(ops[i].target)
    ensures forall part :: part in layers && ResolveTarget(fs, part).Some? ==>
      exists i :: 0 <= i < |ops| && ops[i].partitionName == part
    ensures forall i, j :: 0 <= i < j < |ops| ==> ops[i].partitionName != ops[j].partitionName
  {
    ops := [];
    var rest := layers.Keys;
    while rest != {}
      invariant rest <= layers.Keys
      invariant forall i :: 0 <= i < |ops| ==>
        ops[i].partitionName in layers && ops[i].partitionName !in rest
        && ops[i].lowerdirs == layers[ops[i].partitionName]
        && ResolveTarget(fs, ops[i].partitionName) == Some(ops[i].target)
      invariant forall part :: part in layers && part !in rest && ResolveTarget(fs, part).Some? ==>
        exists i :: 0 <= i < |ops| && ops[i].partitionName == part
      invariant forall i, j :: 0 <= i < j < |ops| ==> ops[i].partitionName != ops[j].partitionName
      decreases rest
    {
      var part :| part in rest;
      var t := "/" + part;
      ghost var before := ops;
      if (fs.IsSymlink(t) || fs.Exists(t)) && t in fs.canonical && fs.IsDir(fs.canonical[t]) {
        ops := ops + [OverlayOp(fs.canonical[t], layers[part], part)];
        assert ops[|ops| - 1].partitionName == part;
      }
      assert forall i :: 0 <= i < |before| ==> ops[i] == before[i];
      rest := rest - {part};
    }
  }

  /** `generate`: the plan for `modules` over the built-in partitions and the
      configured ones. */
  method Generate(config: Config.Config, modules: seq<Module>, storageRoot: string, fs: FsView)
    returns (plan: MountPlan)
    ensures var parts := BuiltinPartitions + config.partitions;
      && (forall i :: 0 <= i < |plan.overlayOps| ==>
            var op := plan.overlayOps[i];
            && op.lowerdirs == Layers(fs, storageRoot, modules, parts, op.partitionName)
            && op.lowerdirs != []
            && ResolveTarget(fs, op.partitionName) == Some(op.target))
      && (forall part :: Layers(fs, storageRoot, modules, parts, part) != [] && ResolveTarget(fs, part).Some? ==>
            exists i :: 0 <= i < |plan.overlayOps| && plan.overlayOps[i].partitionName == part)
      && Elems(plan.overlayModuleIds) == OverlayIds(fs, storageRoot, modules, parts)
      && Elems(plan.magicModuleIds) == MagicIds(fs, modules, parts)
      && Elems(plan.magicModulePaths) == MagicPaths(fs, modules, parts)
    ensures forall i, j :: 0 <= i < j < |plan.magicModulePaths| ==> plan.magicModulePaths[i] != plan.magicModulePaths[j]
    ensures StrictlySorted(plan.overlayModuleIds) && StrictlySorted(plan.magicModuleIds)
  {
    var parts := BuiltinPartitions + config.partitions;
    var layers, overlayIds, magicIds, magicPaths := CollectLayers(fs, storageRoot, modules, parts);
    var ops := EmitOps(fs, layers);
    var paths := Enumerate(magicPaths);
    var sortedOverlay := SortSet(overlayIds);
    var sortedMagic := SortSet(magicIds);
    plan := MountPlan(ops, paths, sortedOverlay, sortedMagic);
  }
}
