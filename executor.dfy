/** Carrying out a mount plan: overlay operations first, with a failed
    operation's modules falling back to magic mount, then one magic mount
    for the whole fallback set; and the pre-flight diagnosis of a plan. */
module Executor {
  import opened Wrappers
  import opened Strs
  import opened FsView
  import opened Planner
  import Config

  const SystemRwDir: string := "/data/adb/meta-hybrid/rw"
  const UnknownModule: string := "unknown"

  datatype ExecutionResult = ExecutionResult(overlayModuleIds: seq<string>, magicModuleIds: seq<string>)

  /** One call of the overlay mount for an operation. */
  datatype MountCall = MountCall(target: string, lowerdirs: seq<string>, upper: Option<string>, work: Option<string>)

  /** What `execute` asks of the rest of the system besides its result. */
  datatype Effects = Effects(
    mountCalls: seq<MountCall>,
    unmountRequests: seq<string>,  // targets handed to `send_umountable`, in order
    magicWorkspace: Option<string>,  // the tmpfs directory recorded for magic mount
    magicMountIds: Option<set<string>>,  // the ids magic mount is called with
    committed: bool)  // whether the unmount list is committed

  // ---------------------------------------------------------------------------
  // execute

  /** The ids `extract_module_id` finds in a layer list. */
  function Involved(dirs: seq<string>, extractId: string -> Option<string>): set<string> {
    set d | d in dirs && extractId(d).Some? :: extractId(d).value
  }

  /** The module ids of the operations among the first `k` whose mount had
      outcome `outcome`. */
  function IdsWith(ops: seq<OverlayOp>, ok: seq<bool>, outcome: bool, extractId: string -> Option<string>, k: nat): set<string>
    requires k <= |ops| == |ok|
  {
    if k == 0 then {}
    else IdsWith(ops, ok, outcome, extractId, k - 1)
         + (if ok[k - 1] == outcome then Involved(ops[k - 1].lowerdirs, extractId) else {})
  }

  /** An id is collected for an outcome exactly when some operation with that
      outcome involves it. */
  lemma {:induction false} IdsWithMeans(ops: seq<OverlayOp>, ok: seq<bool>, outcome: bool,
                                        extractId: string -> Option<string>, k: nat, id: string)
    requires k <= |ops| == |ok|
    ensures id in IdsWith(ops, ok, outcome, extractId, k) <==>
      exists i :: 0 <= i < k && ok[i] == outcome && id in Involved(ops[i].lowerdirs, extractId)
  {
    if k > 0 {
      IdsWithMeans(ops, ok, outcome, extractId, k - 1, id);
      if ok[k - 1] == outcome && id in Involved(ops[k - 1].lowerdirs, extractId) {
        assert 0 <= k - 1 < k && ok[k - 1] == outcome;
      }
    }
  }

  /** The targets of the successful operations among the first `k`, in order. */
  function SucceededTargets(ops: seq<OverlayOp>, ok: seq<bool>, k: nat): seq<string>
    requires k <= |ops| == |ok|
  {
    if k == 0 then []
    else SucceededTargets(ops, ok, k - 1) + (if ok[k - 1] then [ops[k - 1].target] else [])
  }

  /** Unmount requests name exactly the targets of the successful operations. */
  lemma {:induction false} SucceededTargetsMeans(ops: seq<OverlayOp>, ok: seq<bool>, k: nat, t: string)
    requires k <= |ops| == |ok|
    ensures t in SucceededTargets(ops, ok, k) <==> exists i :: 0 <= i < k && ok[i] && ops[i].target == t
  {
    if k > 0 {
      SucceededTargetsMeans(ops, ok, k - 1, t);
      if ok[k - 1] && ops[k - 1].target == t {
        assert 0 <= k - 1 < k;
      }
    }
  }

  /** The upper and work directories of a partition, passed only when both exist. */
  function RwDirs(fs: FsView, partition: string): (r: (Option<string>, Option<string>))
    ensures r.0.Some? <==> r.1.Some?
    ensures r.0.Some? <==>
      fs.Exists(PathJoin(PathJoin(SystemRwDir, partition), "upperdir"))
      && fs.Exists(PathJoin(PathJoin(SystemRwDir, partition), "workdir"))
    ensures r.0.Some? ==> r.0.value == PathJoin(PathJoin(SystemRwDir, partition), "upperdir")
                          && r.1.value == PathJoin(PathJoin(SystemRwDir, partition), "workdir")
  {
    var partRw := PathJoin(SystemRwDir, partition);
    var upper := PathJoin(partRw, "upperdir");
    var work := PathJoin(partRw, "workdir");
    if fs.Exists(upper) && fs.Exists(work) then (Some(upper), Some(work)) else (None, None)
  }

  /** The mount call `execute` makes for an operation. */
  function MountCallOf(fs: FsView, op: OverlayOp): MountCall {
    MountCall(op.target, op.lowerdirs, RwDirs(fs, op.partitionName).0, RwDirs(fs, op.partitionName).1)
  }

  /** The mount calls `execute` makes for `ops`, one per operation, in order. */
  function MountCalls(fs: FsView, ops: seq<OverlayOp>): (r: seq<MountCall>)
    ensures |r| == |ops| && forall i :: 0 <= i < |ops| ==> r[i] == MountCallOf(fs, ops[i])
  {
    if ops == [] then [] else MountCalls(fs, ops[..|ops| - 1]) + [MountCallOf(fs, ops[|ops| - 1])]
  }

  /** The magic set once every operation has run: the planned magic modules
      plus the modules of every failed operation. */
  function FallbackIds(plan: MountPlan, ok: seq<bool>, extractId: string -> Option<string>): set<string>
    requires |ok| == |plan.overlayOps|
  {
    Elems(plan.magicModuleIds) + IdsWith(plan.overlayOps, ok, false, extractId, |ok|)
  }

  /** The overlay set after `retain`: modules of successful operations that
      did not also land in the magic set. */
  function OverlayIdsFinal(plan: MountPlan, ok: seq<bool>, extractId: string -> Option<string>): set<string>
    requires |ok| == |plan.overlayOps|
  {
    IdsWith(plan.overlayOps, ok, true, extractId, |ok|) - FallbackIds(plan, ok, extractId)
  }

  function MagicWorkspace(hybridMntDir: string): string {
    PathJoin(hybridMntDir, "magic_workspace")
  }

  /** `execute`. The outcome of each overlay mount is `ok`; whether the magic
      workspace can be created and whether magic mount succeeds are
      `canCreateWorkspace` and `magicOk`. */
  method Execute(plan: MountPlan, config: Config.Config, hybridMntDir: string, fs: FsView,
                 extractId: string -> Option<string>, ok: seq<bool>, canCreateWorkspace: bool, magicOk: bool)
    returns (res: Result<ExecutionResult>, fx: Effects)
    requires |ok| == |plan.overlayOps|
    ensures fx.mountCalls == MountCalls(fs, plan.overlayOps)
    ensures fx.unmountRequests == if config.disableUmount then [] else SucceededTargets(plan.overlayOps, ok, |ok|)
    ensures var magic := FallbackIds(plan, ok, extractId);
      && (res.Err? <==> magic != {} && !fs.Exists(MagicWorkspace(hybridMntDir)) && !canCreateWorkspace)
      && (fx.magicWorkspace == if magic == {} then None else Some(MagicWorkspace(hybridMntDir)))
      && (fx.magicMountIds == if magic == {} || res.Err? then None else Some(magic))
      && (fx.committed <==> res.Ok? && !config.disableUmount)
      && (res.Ok? ==>
            && Elems(res.value.overlayModuleIds) == OverlayIdsFinal(plan, ok, extractId)
            && Elems(res.value.magicModuleIds) == (if magic != {} && !magicOk then {} else magic)
            && StrictlySorted(res.value.overlayModuleIds)
            && StrictlySorted(res.value.magicModuleIds)
            && Elems(res.value.overlayModuleIds) !! Elems(res.value.magicModuleIds))
  {
    var calls, unmounts, finalOverlay, finalMagic := MountEachOp(plan, config.disableUmount, fs, extractId, ok);
    RoundsMeans(plan, config.disableUmount, fs, extractId, ok, |ok|);
    assert plan.overlayOps[..|ok|] == plan.overlayOps;
    finalOverlay := finalOverlay - finalMagic;

    var queue := SortSet(finalMagic);
    ElemsEmpty(queue);
    var workspace: Option<string> := None;
    var magicIds: Option<set<string>> := None;
    if queue != [] {
      var tempdir := MagicWorkspace(hybridMntDir);
      workspace := Some(tempdir);
      if !fs.Exists(tempdir) && !canCreateWorkspace {
        fx := Effects(calls, unmounts, workspace, None, false);
        res := Err("cannot create " + tempdir);
        return;
      }
      magicIds := Some(Elems(queue));
      if !magicOk {
        finalMagic := {};
      }
    }
    fx := Effects(calls, unmounts, workspace, magicIds, !config.disableUmount);
    var resultOverlay := SortSet(finalOverlay);
    var resultMagic := SortSet(finalMagic);
    res := Ok(ExecutionResult(resultOverlay, resultMagic));
  }

  /** What the loop of `execute` has accumulated: the mount calls made, the
      unmount requests queued, and the overlay and magic id sets. */
  datatype LoopState = LoopState(calls: seq<MountCall>, unmounts: seq<string>, overlay: set<string>, magic: set<string>)

  /** One round of the loop: the operation `op` is mounted with outcome `success`. */
  function MountRound(st: LoopState, op: OverlayOp, success: bool, disableUmount: bool, fs: FsView,
                      extractId: string -> Option<string>): LoopState {
    var involved := Involved(op.lowerdirs, extractId);
    LoopState(st.calls + [MountCallOf(fs, op)],
              if success && !disableUmount then st.unmounts + [op.target] else st.unmounts,
              if success then st.overlay + involved else st.overlay,
              if success then st.magic else st.magic + involved)
  }

  /** The state after the first `k` rounds. */
  function Rounds(plan: MountPlan, disableUmount: bool, fs: FsView, extractId: string -> Option<string>,
                  ok: seq<bool>, k: nat): LoopState
    requires k <= |plan.overlayOps| == |ok|
  {
    if k == 0 then LoopState([], [], {}, Elems(plan.magicModuleIds))
    else MountRound(Rounds(plan, disableUmount, fs, extractId, ok, k - 1),
                    plan.overlayOps[k - 1], ok[k - 1], disableUmount, fs, extractId)
  }

  /** After `k` rounds: one mount call per operation, the targets of the
      successful operations queued unless unmounting is disabled, the modules
      of the successful operations in the overlay set and those of the failed
      ones added to the planned magic modules. */
  lemma {:induction false} RoundsMeans(plan: MountPlan, disableUmount: bool, fs: FsView,
                                       extractId: string -> Option<string>, ok: seq<bool>, k: nat)
    requires k <= |plan.overlayOps| == |ok|
    ensures var st := Rounds(plan, disableUmount, fs, extractId, ok, k);
      && st.calls == MountCalls(fs, plan.overlayOps[..k])
      && st.unmounts == (if disableUmount then [] else SucceededTargets(plan.overlayOps, ok, k))
      && st.overlay == IdsWith(plan.overlayOps, ok, true, extractId, k)
      && st.magic == Elems(plan.magicModuleIds) + IdsWith(plan.overlayOps, ok, false, extractId, k)
  {
    if k > 0 {
      RoundsMeans(plan, disableUmount, fs, extractId, ok, k - 1);
      assert plan.overlayOps[..k][..k - 1] == plan.overlayOps[..k - 1];
      var prev := Rounds(plan, disableUmount, fs, extractId, ok, k - 1);
      IdsWithStep(prev.overlay, {}, plan.overlayOps, ok, true, extractId, k - 1);
      IdsWithStep(prev.magic, Elems(plan.magicModuleIds), plan.overlayOps, ok, false, extractId, k - 1);
    }
  }

  /** The loop of `execute` over the overlay operations: one mount call per
      operation; the modules of a successful one go to the overlay set and its
      target is queued for unmounting, those of a failed one fall back to magic. */
  method MountEachOp(plan: MountPlan, disableUmount: bool, fs: FsView,
                     extractId: string -> Option<string>, ok: seq<bool>)
    returns (calls: seq<MountCall>, unmounts: seq<string>, finalOverlay: set<string>, finalMagic: set<string>)
    requires |ok| == |plan.overlayOps|
    ensures LoopState(calls, unmounts, finalOverlay, finalMagic) == Rounds(plan, disableUmount, fs, extractId, ok, |ok|)
  {
    finalMagic := Elems(plan.magicModuleIds);
    finalOverlay := {};
    calls := [];
    unmounts := [];
    var i := 0;
    while i < |plan.overlayOps|
      invariant 0 <= i <= |plan.overlayOps|
      invariant LoopState(calls, unmounts, finalOverlay, finalMagic) == Rounds(plan, disableUmount, fs, extractId, ok, i)
    {
      var op := plan.overlayOps[i];
      var involved := Involved(op.lowerdirs, extractId);
      var call := PrepareMount(fs, op);
      calls := calls + [call];
      if ok[i] {
        finalOverlay := finalOverlay + involved;
        if !disableUmount {
          unmounts := unmounts + [op.target];
        }
      } else {
        finalMagic := finalMagic + involved;
      }
      i := i + 1;
    }
  }

  /** The mount call for one operation: the partition's upper and work
      directories are passed when both exist. */
  method PrepareMount(fs: FsView, op: OverlayOp) returns (call: MountCall)
    ensures call == MountCallOf(fs, op)
  {
    var partRw := PathJoin(SystemRwDir, op.partitionName);
    var upper := PathJoin(partRw, "upperdir");
    var work := PathJoin(partRw, "workdir");
    var upperOpt, workOpt := None, None;
    if fs.Exists(upper) && fs.Exists(work) {
      upperOpt, workOpt := Some(upper), Some(work);
    }
    call := MountCall(op.target, op.lowerdirs, upperOpt, workOpt);
  }

  /** One operation's step of the id sets `execute` accumulates. */
  lemma IdsWithStep(acc: set<string>, base: set<string>, ops: seq<OverlayOp>, ok: seq<bool>, outcome: bool,
                    extractId: string -> Option<string>, i: nat)
    requires i < |ops| == |ok|
    requires acc == base + IdsWith(ops, ok, outcome, extractId, i)
    ensures (if ok[i] == outcome then acc + Involved(ops[i].lowerdirs, extractId) else acc)
      == base + IdsWith(ops, ok, outcome, extractId, i + 1)
  {
  }

  /** While magic mount succeeds no module is lost: every planned magic
      module and every module of any operation ends up in one of the two
      sets, and a module of a failed operation always falls back to magic. */
  lemma ExecuteCovers(plan: MountPlan, ok: seq<bool>, extractId: string -> Option<string>, id: string)
    requires |ok| == |plan.overlayOps|
    ensures id in OverlayIdsFinal(plan, ok, extractId) + FallbackIds(plan, ok, extractId) <==>
      id in plan.magicModuleIds
      || exists i :: 0 <= i < |ok| && id in Involved(plan.overlayOps[i].lowerdirs, extractId)
    ensures (exists i :: 0 <= i < |ok| && !ok[i] && id in Involved(plan.overlayOps[i].lowerdirs, extractId))
      ==> id in FallbackIds(plan, ok, extractId)
    ensures id in OverlayIdsFinal(plan, ok, extractId) <==>
      && id !in plan.magicModuleIds
      && (exists i :: 0 <= i < |ok| && ok[i] && id in Involved(plan.overlayOps[i].lowerdirs, extractId))
      && !(exists i :: 0 <= i < |ok| && !ok[i] && id in Involved(plan.overlayOps[i].lowerdirs, extractId))
  {
    IdsWithMeans(plan.overlayOps, ok, true, extractId, |ok|, id);
    IdsWithMeans(plan.overlayOps, ok, false, extractId, |ok|, id);
    assert id in Elems(plan.magicModuleIds) <==> id in plan.magicModuleIds;
    if exists i :: 0 <= i < |ok| && id in Involved(plan.overlayOps[i].lowerdirs, extractId) {
      var i :| 0 <= i < |ok| && id in Involved(plan.overlayOps[i].lowerdirs, extractId);
      assert ok[i] || !ok[i];
    }
  }

  // ---------------------------------------------------------------------------
  // diagnose_plan

  datatype DiagnosticLevel = Info | Warning | Critical

  datatype DiagnosticIssue = DiagnosticIssue(level: DiagnosticLevel, context: string, message: string)

  /** An entry of a directory walk: its path, whether it is a symlink, and
      what `read_link` returns for it. */
  datatype WalkEntry = WalkEntry(path: string, isSymlink: bool, linkTarget: Option<string>)

  function MissingTarget(op: OverlayOp): DiagnosticIssue {
    DiagnosticIssue(Critical, op.partitionName, "Target mount point does not exist: " + op.target)
  }

  /** The critical issues of the first `k` operations. */
  function Criticals(fs: FsView, ops: seq<OverlayOp>, k: nat): seq<DiagnosticIssue>
    requires k <= |ops|
  {
    if k == 0 then []
    else Criticals(fs, ops, k - 1) + (if !fs.Exists(ops[k - 1].target) then [MissingTarget(ops[k - 1])] else [])
  }

  /** Every layer of every operation with the module it belongs to. */
  function AllLayers(ops: seq<OverlayOp>, extractId: string -> Option<string>): seq<(string, string)> {
    if ops == [] then []
    else AllLayers(ops[..|ops| - 1], extractId) + LayersOf(ops[|ops| - 1].lowerdirs, extractId)
  }

  function LayersOf(dirs: seq<string>, extractId: string -> Option<string>): (r: seq<(string, string)>)
    ensures |r| == |dirs|
    ensures forall j :: 0 <= j < |r| ==> r[j] == (extractId(dirs[j]).GetOr(UnknownModule), dirs[j])
  {
    seq(|dirs|, j requires 0 <= j < |dirs| => (extractId(dirs[j]).GetOr(UnknownModule), dirs[j]))
  }

  /** A walk entry that is a symlink whose target is absolute and missing. */
  predicate DeadAbsoluteLink(fs: FsView, e: WalkEntry) {
    e.isSymlink && e.linkTarget.Some? && IsAbsolute(e.linkTarget.value) && !fs.Exists(e.linkTarget.value)
  }

  function DeadLink(modId: string, e: WalkEntry): DiagnosticIssue
    requires e.linkTarget.Some?
  {
    DiagnosticIssue(Warning, modId, "Dead absolute symlink: " + e.path + " -> " + e.linkTarget.value)
  }

  /** The warnings for the first `k` entries of one layer's walk. */
  function LinkWarnings(fs: FsView, modId: string, entries: seq<WalkEntry>, k: nat): seq<DiagnosticIssue>
    requires k <= |entries|
  {
    if k == 0 then []
    else LinkWarnings(fs, modId, entries, k - 1)
         + (if DeadAbsoluteLink(fs, entries[k - 1]) then [DeadLink(modId, entries[k - 1])] else [])
  }

  /** The warnings of the first `k` layers; a missing layer is not walked. */
  function Warnings(fs: FsView, walk: string -> seq<WalkEntry>, layers: seq<(string, string)>, k: nat): seq<DiagnosticIssue>
    requires k <= |layers|
  {
    if k == 0 then []
    else Warnings(fs, walk, layers, k - 1)
         + (var (modId, layer) := layers[k - 1];
            if fs.Exists(layer) then LinkWarnings(fs, modId, walk(layer), |walk(layer)|) else [])
  }

  /** `diagnose_plan`. `walk` is the listing `WalkDir` produces for a layer,
      with unreadable entries already dropped. */
  method DiagnosePlan(plan: MountPlan, fs: FsView, extractId: string -> Option<string>, walk: string -> seq<WalkEntry>)
    returns (issues: seq<DiagnosticIssue>)
    ensures var layers := AllLayers(plan.overlayOps, extractId);
      issues == Criticals(fs, plan.overlayOps, |plan.overlayOps|) + Warnings(fs, walk, layers, |layers|)
  {
    issues := [];
    var i := 0;
    while i < |plan.overlayOps|
      invariant 0 <= i <= |plan.overlayOps|
      invariant issues == Criticals(fs, plan.overlayOps, i)
    {
      var op := plan.overlayOps[i];
      if !fs.Exists(op.target) {
        issues := issues + [MissingTarget(op)];
      }
      i := i + 1;
    }
    ghost var criticals := issues;
    var layers := AllLayers(plan.overlayOps, extractId);
    var k := 0;
    while k < |layers|
      invariant 0 <= k <= |layers|
      invariant issues == criticals + Warnings(fs, walk, layers, k)
    {
      var (modId, layer) := layers[k];
      if fs.Exists(layer) {
        var found := WalkLayer(fs, modId, walk(layer));
        issues := issues + found;
      }
      k := k + 1;
    }
  }

  /** The walk of one existing layer. */
  method WalkLayer(fs: FsView, modId: string, entries: seq<WalkEntry>) returns (found: seq<DiagnosticIssue>)
    ensures found == LinkWarnings(fs, modId, entries, |entries|)
  {
    found := [];
    var j := 0;
    while j < |entries|
      invariant 0 <= j <= |entries|
      invariant found == LinkWarnings(fs, modId, entries, j)
    {
      var e := entries[j];
      if e.isSymlink && e.linkTarget.Some? && IsAbsolute(e.linkTarget.value) && !fs.Exists(e.linkTarget.value) {
        found := found + [DeadLink(modId, e)];
      }
      j := j + 1;
    }
  }

  /** A critical issue is reported exactly for each operation whose target is
      missing, with the partition as its context. */
  lemma {:induction false} CriticalsMeans(fs: FsView, ops: seq<OverlayOp>, k: nat, issue: DiagnosticIssue)
    requires k <= |ops|
    ensures issue in Criticals(fs, ops, k) <==>
      exists i :: 0 <= i < k && !fs.Exists(ops[i].target) && issue == MissingTarget(ops[i])
    ensures |Criticals(fs, ops, k)| <= k
  {
    if k > 0 {
      CriticalsMeans(fs, ops, k - 1, issue);
      var prev := Criticals(fs, ops, k - 1);
      var last := if !fs.Exists(ops[k - 1].target) then [MissingTarget(ops[k - 1])] else [];
      assert Criticals(fs, ops, k) == prev + last;
      assert issue in prev + last <==> issue in prev || issue in last;
      if !fs.Exists(ops[k - 1].target) && issue == MissingTarget(ops[k - 1]) {
        assert 0 <= k - 1 < k;
      } else {
        assert issue !in last;
        if exists i :: 0 <= i < k && !fs.Exists(ops[i].target) && issue == MissingTarget(ops[i]) {
          var i :| 0 <= i < k && !fs.Exists(ops[i].target) && issue == MissingTarget(ops[i]);
          assert i < k - 1;
        }
      }
    }
  }

  /** A warning is reported for a layer's walk exactly for each dead absolute
      symlink among its entries, under the layer's module. */
  lemma {:induction false} LinkWarningsMeans(fs: FsView, modId: string, entries: seq<WalkEntry>, k: nat,
                                             w: DiagnosticIssue)
    requires k <= |entries|
    ensures w in LinkWarnings(fs, modId, entries, k) <==>
      exists j :: 0 <= j < k && DeadAbsoluteLink(fs, entries[j]) && w == DeadLink(modId, entries[j])
    ensures w in LinkWarnings(fs, modId, entries, k) ==> w.level == Warning && w.context == modId
  {
    if k > 0 {
      LinkWarningsMeans(fs, modId, entries, k - 1, w);
      var prev := LinkWarnings(fs, modId, entries, k - 1);
      var e := entries[k - 1];
      var last := if DeadAbsoluteLink(fs, e) then [DeadLink(modId, e)] else [];
      assert LinkWarnings(fs, modId, entries, k) == prev + last;
      assert w in prev + last <==> w in prev || w in last;
      if DeadAbsoluteLink(fs, e) && w == DeadLink(modId, e) {
        assert DeadAbsoluteLink(fs, entries[k - 1]) && w == DeadLink(modId, entries[k - 1]);
      } else {
        assert w !in last;
        if exists j :: 0 <= j < k && DeadAbsoluteLink(fs, entries[j]) && w == DeadLink(modId, entries[j]) {
          var j :| 0 <= j < k && DeadAbsoluteLink(fs, entries[j]) && w == DeadLink(modId, entries[j]);
          assert j < k - 1;
        }
      }
    }
  }

  /** The `j`-th entry of the walk of layer `i` is a dead absolute symlink
      and `w` is its warning; the layer exists, so it is walked. */
  ghost predicate WarnsAt(fs: FsView, walk: string -> seq<WalkEntry>, layers: seq<(string, string)>,
                          i: int, j: int, w: DiagnosticIssue) {
    && 0 <= i < |layers| && fs.Exists(layers[i].1)
    && 0 <= j < |walk(layers[i].1)|
    && DeadAbsoluteLink(fs, walk(layers[i].1)[j])
    && w == DeadLink(layers[i].0, walk(layers[i].1)[j])
  }

  /** Some entry of the walk of layer `i` warns with `w`. */
  ghost predicate WarnsInLayer(fs: FsView, walk: string -> seq<WalkEntry>, layers: seq<(string, string)>,
                               i: int, w: DiagnosticIssue) {
    exists j :: WarnsAt(fs, walk, layers, i, j, w)
  }

  /** Over the first `k` layers, a warning is reported exactly for each dead
      absolute symlink in the walk of a layer that exists, under that layer's
      module; a missing layer contributes nothing. */
  lemma {:induction false} WarningsMeans(fs: FsView, walk: string -> seq<WalkEntry>, layers: seq<(string, string)>,
                                         k: nat, w: DiagnosticIssue)
    requires k <= |layers|
    ensures w in Warnings(fs, walk, layers, k) <==> exists i, j :: i < k && WarnsAt(fs, walk, layers, i, j, w)
    ensures w in Warnings(fs, walk, layers, k) ==> w.level == Warning
  {
    if k > 0 {
      WarningsMeans(fs, walk, layers, k - 1, w);
      WarningsStep(fs, walk, layers, k, w);
      if exists i, j :: i < k && WarnsAt(fs, walk, layers, i, j, w) {
        var i, j :| i < k && WarnsAt(fs, walk, layers, i, j, w);
        if i < k - 1 {
          assert i < k - 1 && WarnsAt(fs, walk, layers, i, j, w);
        } else {
          assert WarnsInLayer(fs, walk, layers, k - 1, w);
        }
      }
      if exists i, j :: i < k - 1 && WarnsAt(fs, walk, layers, i, j, w) {
        var i, j :| i < k - 1 && WarnsAt(fs, walk, layers, i, j, w);
        assert i < k && WarnsAt(fs, walk, layers, i, j, w);
      }
      if WarnsInLayer(fs, walk, layers, k - 1, w) {
        var j :| WarnsAt(fs, walk, layers, k - 1, j, w);
        assert k - 1 < k && WarnsAt(fs, walk, layers, k - 1, j, w);
      }
    }
  }

  /** The warnings of layer `k - 1` are appended to those before it. */
  lemma WarningsStep(fs: FsView, walk: string -> seq<WalkEntry>, layers: seq<(string, string)>,
                     k: nat, w: DiagnosticIssue)
    requires 0 < k <= |layers|
    ensures w in Warnings(fs, walk, layers, k) <==>
      w in Warnings(fs, walk, layers, k - 1) || WarnsInLayer(fs, walk, layers, k - 1, w)
  {
    var (modId, layer) := layers[k - 1];
    var here := if fs.Exists(layer) then LinkWarnings(fs, modId, walk(layer), |walk(layer)|) else [];
    assert Warnings(fs, walk, layers, k) == Warnings(fs, walk, layers, k - 1) + here;
    if fs.Exists(layer) {
      LinkWarningsMeans(fs, modId, walk(layer), |walk(layer)|, w);
      if w in here {
        var j :| 0 <= j < |walk(layer)| && DeadAbsoluteLink(fs, walk(layer)[j]) && w == DeadLink(modId, walk(layer)[j]);
        assert WarnsAt(fs, walk, layers, k - 1, j, w);
        assert WarnsInLayer(fs, walk, layers, k - 1, w);
      }
      if WarnsInLayer(fs, walk, layers, k - 1, w) {
        var j :| WarnsAt(fs, walk, layers, k - 1, j, w);
        assert DeadAbsoluteLink(fs, walk(layer)[j]) && w == DeadLink(modId, walk(layer)[j]);
      }
    }
  }
}
