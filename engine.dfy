/** The engine's typestate pipeline: storage, module scan, plan, execution
    and finalisation, each stage consuming the previous one and carrying the
    configuration and what earlier stages produced. */
module Engine {
  import opened Wrappers
  import Config
  import Storage
  import opened Planner
  import Executor

  /** The stage an engine is in, with what it carries. `handle` is the
      storage the engine was given; the engine itself never changes it. */
  datatype Stage =
    | Init
    | StorageReady(handle: Storage.StorageChoice)
    | ModulesReady(handle: Storage.StorageChoice, modules: seq<Module>)
    | Planned(handle: Storage.StorageChoice, modules: seq<Module>, plan: MountPlan)
    | Executed(handle: Storage.StorageChoice, modules: seq<Module>, plan: MountPlan, result: Executor.ExecutionResult)

  datatype Engine = Engine(config: Config.Config, stage: Stage)

  /** `new`. */
  function New(config: Config.Config): (e: Engine)
    ensures e.config == config && e.stage.Init?
  {
    Engine(config, Init)
  }

  /** `init_storage`, given the outcome of setting the storage up. */
  function InitStorage(e: Engine, setup: Result<Storage.StorageChoice>): (r: Result<Engine>)
    requires e.stage.Init?
    ensures r.Ok? <==> setup.Ok?
    ensures r.Ok? ==> r.value.config == e.config && r.value.stage == StorageReady(setup.value)
  {
    match setup
    case Err(msg) => Err(msg)
    case Ok(handle) => Ok(Engine(e.config, StorageReady(handle)))
  }

  /** `scan_and_sync`, given the scanned modules and the sync outcome. */
  function ScanAndSync(e: Engine, scanned: Result<seq<Module>>, sync: Outcome): (r: Result<Engine>)
    requires e.stage.StorageReady?
    ensures r.Ok? <==> scanned.Ok? && sync.Pass?
    ensures r.Ok? ==> r.value.config == e.config && r.value.stage == ModulesReady(e.stage.handle, scanned.value)
  {
    if scanned.Err? then Err(scanned.msg)
    else if sync.Fail? then Err(sync.msg)
    else Ok(Engine(e.config, ModulesReady(e.stage.handle, scanned.value)))
  }

  /** `generate_plan`, given the planner's outcome. */
  function GeneratePlan(e: Engine, plan: Result<MountPlan>): (r: Result<Engine>)
    requires e.stage.ModulesReady?
    ensures r.Ok? <==> plan.Ok?
    ensures r.Ok? ==> r.value.config == e.config && r.value.stage == Planned(e.stage.handle, e.stage.modules, plan.value)
  {
    match plan
    case Err(msg) => Err(msg)
    case Ok(p) => Ok(Engine(e.config, Planned(e.stage.handle, e.stage.modules, p)))
  }

  /** `execute`, given the executor's outcome. */
  function Execute(e: Engine, result: Result<Executor.ExecutionResult>): (r: Result<Engine>)
    requires e.stage.Planned?
    ensures r.Ok? <==> result.Ok?
    ensures r.Ok? ==> (r.value.config == e.config
      && r.value.stage == Executed(e.stage.handle, e.stage.modules, e.stage.plan, result.value))
  {
    match result
    case Err(msg) => Err(msg)
    case Ok(res) => Ok(Engine(e.config, Executed(e.stage.handle, e.stage.modules, e.stage.plan, res)))
  }

  /** The runtime state `finalize` saves. */
  datatype RuntimeState = RuntimeState(
    storageMode: string,
    mountPoint: string,
    overlayModules: seq<string>,
    magicModules: seq<string>,
    nukeActive: bool,
    activeMounts: seq<string>,
    storageStats: (int, int, int))

  /** The partition of every overlay operation, in plan order. */
  function ActiveMounts(ops: seq<OverlayOp>): (r: seq<string>)
    ensures |r| == |ops|
    ensures forall i :: 0 <= i < |ops| ==> r[i] == ops[i].partitionName
  {
    if ops == [] then [] else [ops[0].partitionName] + ActiveMounts(ops[1..])
  }

  /** `finalize`. `nukeOk` is the outcome of purging the sysfs traces,
      `stat` the storage's `statvfs`, and `saveOk` whether the state could be
      written; a failed save is only logged. The nuke is attempted only on
      ext4 storage with the nuke enabled. */
  method Finalize(e: Engine, nukeOk: bool, stat: Option<Storage.StatVfs>, saveOk: bool)
    returns (r: Outcome, nukeAttempted: bool, state: RuntimeState)
    requires e.stage.Executed?
    requires stat.Some? ==> Storage.ValidStat(stat.value)
    ensures r == Pass
    ensures nukeAttempted <==> e.stage.handle.mode == Storage.ModeExt4 && e.config.enableNuke
    ensures state.nukeActive <==> nukeAttempted && nukeOk
    ensures state.storageMode == e.stage.handle.mode && state.mountPoint == e.stage.handle.mountPoint
    ensures state.overlayModules == e.stage.result.overlayModuleIds
    ensures state.magicModules == e.stage.result.magicModuleIds
    ensures state.activeMounts == ActiveMounts(e.stage.plan.overlayOps)
    ensures state.storageStats == Storage.GetUsage(stat)
  {
    var handle := e.stage.handle;
    var nukeActive := false;
    nukeAttempted := false;
    if handle.mode == Storage.ModeExt4 && e.config.enableNuke {
      nukeAttempted := true;
      if nukeOk {
        nukeActive := true;
      }
    }
    var stats := Storage.GetUsage(stat);
    var activeMounts := [];
    var ops := e.stage.plan.overlayOps;
    var i := 0;
    while i < |ops|
      invariant 0 <= i <= |ops|
      invariant activeMounts == ActiveMounts(ops[..i])
    {
      ActiveMountsSnoc(ops[..i], ops[i]);
      assert ops[..i + 1] == ops[..i] + [ops[i]];
      activeMounts := activeMounts + [ops[i].partitionName];
      i := i + 1;
    }
    assert ops[..i] == ops;
    state := RuntimeState(handle.mode, handle.mountPoint, e.stage.result.overlayModuleIds,
                          e.stage.result.magicModuleIds, nukeActive, activeMounts, stats);
    r := Pass;
  }

  lemma {:induction false} ActiveMountsSnoc(ops: seq<OverlayOp>, op: OverlayOp)
    ensures ActiveMounts(ops + [op]) == ActiveMounts(ops) + [op.partitionName]
  {
    if ops != [] {
      assert (ops + [op])[1..] == ops[1..] + [op];
      ActiveMountsSnoc(ops[1..], op);
    }
  }

  /** The whole pipeline from `new` to `execute`: it succeeds exactly when
      every stage does, and the executed engine still has the configuration
      it was created with, the storage `setup` gave, the scanned modules and
      the generated plan. */
  lemma Pipeline(config: Config.Config, setup: Result<Storage.StorageChoice>, scanned: Result<seq<Module>>,
                 sync: Outcome, plan: Result<MountPlan>, result: Result<Executor.ExecutionResult>)
    ensures var s1 := InitStorage(New(config), setup);
      var s2 := if s1.Ok? then ScanAndSync(s1.value, scanned, sync) else Err(s1.msg);
      var s3 := if s2.Ok? then GeneratePlan(s2.value, plan) else Err(s2.msg);
      var s4 := if s3.Ok? then Execute(s3.value, result) else Err(s3.msg);
      && (s4.Ok? <==> setup.Ok? && scanned.Ok? && sync.Pass? && plan.Ok? && result.Ok?)
      && (s4.Ok? ==> s4.value == Engine(config, Executed(setup.value, scanned.value, plan.value, result.value)))
  {
  }
}
