# meta-hybrid_mount: the mount decision logic, modelled in Dafny

meta-hybrid_mount is a root-manager module (KernelSU and forks) that mounts
the files of installed modules over the Android system partitions. For each
module it chooses between OverlayFS and "magic mount" (bind mounts over a
tmpfs skeleton). Its modules storage lives on a tmpfs, an EROFS image staged
on tmpfs, or an ext4 image. The mounts it creates are queued so that the
root manager can unmount them for apps that should not see them.

This project models the decisions this daemon makes between scanning the
module directory and issuing mount system calls:

- conflict winnowing and the rule table;
- configuration defaults, the flexible `partitions` value and the
  command-line merge;
- the magic-mount node tree: one tree per module, merged with the earlier
  module winning, partitions relocated between `/system/X` and `/X`, and the
  per-directory tmpfs and skip decisions;
- the overlay option strings: layers capped at 128 and 3000 bytes, `:`
  joining, `,` escaping, upper and work only when both exist, nested mount
  discovery;
- the mount planner and the executor's bookkeeping of overlay and magic
  module ids, with the fallback of failed overlays to magic mount;
- the unmount registry (a history set plus a queue, and a commit that
  retries with a detaching flag) and the fixed 256-byte SUSFS path buffer;
- SELinux label choice, extended-attribute copying and the kernel
  configuration scan;
- `module.prop` lookup and module listing;
- storage mode selection, the `erofs_staging` to `erofs` commit and the
  usage arithmetic;
- the engine's typestate pipeline and its finalisation.

File system facts (`exists`, `is_dir`, `is_symlink`, `canonicalize`,
directory listings, labels) come from the `FsView` oracle in `fsview.dfy`.
Kernel calls (fsopen/fsmount/move_mount, mount, open_tree, umount, ioctl,
prctl) are the `Kernel` oracle in `kernel.dfy` or boolean parameters that
give their outcome. Rust's `str` and `Path` operations are written out in
`strs.dfy`, with the component-wise `Path::starts_with` separate from the
text prefix test `str::starts_with`. `HashMap` and `HashSet` iteration
order is never fixed by the model. Operations over such collections are
stated for every order, or their results are stated as sets.

Files, one Dafny module each: `wrappers.dfy` (Option, Result, Outcome),
`strs.dfy`, `fsview.dfy`, `kernel.dfy`, `config.dfy`, `winnow.dfy`,
`node.dfy`, `magic.dfy`, `planner.dfy`, `executor.dfy`, `overlayfs.dfy`,
`overlay.dfy`, `partitions.dfy`, `try_umount.dfy`, `susfs.dfy`, `xattr.dfy`,
`scanner.dfy`, `storage.dfy`, `engine.dfy`.

Two behaviours of the code that the model keeps:

- The conflict winner without an applicable rule is the LAST contender, not
  the first (src/core/winnow.rs:25,28).
- The executor reads `op.partition_name` (src/core/executor.rs:47,112), a
  field that the planner's `OverlayOperation` (src/core/planner.rs:8-11)
  does not have. The model has one `OverlayOp` datatype carrying the
  partition name. The planner fills it with the partition key it grouped
  the layers under.

## Model

| member | source | states |
|---|---|---|
| Config.WinnowingTable.constructor | src/conf/config.rs:12-16 | a new table has no rules |
| Config.WinnowingTable.GetPreferredModule | src/conf/config.rs:19-22 | a rule is found exactly when the exact path string is a key, and the rule is its stored module; there is no prefix matching |
| Config.WinnowingTable.SetRule | src/conf/config.rs:24-27 | the rule for the path is now the module, and every other path's lookup is unchanged |
| Config.WinnowingTable.RemoveRule | src/conf/config.rs:30-32 | the path has no rule afterwards, and every other path's lookup is unchanged |
| Config.DefaultGranary | src/conf/config.rs:43-56 | the default retention settings are 20 backups and 0 days |
| Config.DeserializePartitions | src/conf/config.rs:94-113 | a list is taken verbatim; every item parsed from a string is non-empty, has no comma and no whitespace at either end |
| Config.TrimmedPlain | src/conf/config.rs:105-111 | a comma-free piece, once trimmed, is either empty (and dropped) or a plain item |
| Config.PartitionsRoundTrip | src/conf/config.rs:105-111 | writing plain partition names comma-separated and parsing the string gives the names back |
| Config.SplitJoin | src/conf/config.rs:107-108 | splitting a separator-joined list of separator-free items gives the items back |
| Config.FilterAllKept | src/conf/config.rs:110 | the empty-item filter keeps a list whose items are all non-empty |
| Config.Config.Default | src/conf/config.rs:115-132 | the defaults: module directory `/data/adb/modules/`, mount source `KSU`, every flag false, no partitions, no rules, granary 20/0 |
| Config.Config.MergeWithCli | src/conf/config.rs:154-177 | given values replace their fields, an empty partition list keeps the old one, `verbose` and `dry_run` can be set but never cleared, and every other field is unchanged |
| Winnow.SelectWinner | src/core/winnow.rs:21-29 | the forced module wins when it is a contender; otherwise the last contender; `unknown` when there are none; a winner is always a contender when there are contenders |
| Winnow.SiftOne | src/core/winnow.rs:17-36 | the entry's path is `/system/` plus the relative path, contenders pass through, the winner is as above, and `is_forced` holds exactly when a rule exists for the path |
| Winnow.SiftConflicts | src/core/winnow.rs:13-38 | one entry per conflict, in input order, each sifted as above |
| MountNode.FromFileType | src/mount/node.rs:23-33 | files, directories and symlinks map to their node types; nothing maps to whiteout; anything else is none |
| MountNode.NewRoot | src/mount/node.rs:154-166 | an empty directory node with no module path, neither replace nor skip |
| MountNode.DirIsReplace | src/mount/node.rs:127-152 | true exactly when the opaque attribute is `y` or the directory opens and holds `.replace`; an error only for a non-text path without the attribute |
| MountNode.NewModule | src/mount/node.rs:168-202 | none exactly when metadata fails or the type is unsupported; a character device with rdev 0 is a whiteout; `replace` only for directories and only when `dir_is_replace` says true |
| MountNode.CollectModuleFiles | src/mount/node.rs:99-125 | the loop computes the scan of every entry, as the recursive definition states it |
| MountNode.CollectKeepsExisting | src/mount/node.rs:109-111 | the scan never replaces a child the node already had |
| MountNode.CollectAddsModuleNodes | src/mount/node.rs:109-120 | every child the scan adds comes from an entry of that name and has the head of the node `new_module` built for it: its name, kind, module path, replace and skip flags |
| Magic.ChildOrRoot | src/mount/magic.rs:118-121 | the existing child of that name, or a fresh root node |
| Magic.AsPartitionDir | src/mount/magic.rs:122-125 | a symlink node becomes a directory with its module path cleared; any other node is unchanged |
| Magic.ProcessModule | src/mount/magic.rs:75-157 | an inactive or invalid module gives two empty trees; the root tree only holds extra partitions that are eligible (not system, not a root partition, not excluded, `/X` a directory, `/system/X` missing or a symlink) |
| Magic.AttachRootPartitions | src/mount/magic.rs:112-128 | the loop over the root partitions computes `AttachRootParts` over all of them |
| Magic.AttachExtraPartitions | src/mount/magic.rs:130-155 | the loop over the extra partitions computes `AttachExtras` over all of them, starting from an empty root |
| Magic.ExtrasEligible | src/mount/magic.rs:130-155 | only eligible extra partitions are ever added to the root tree |
| Magic.RootPartsAttached | src/mount/magic.rs:112-128 | attaching root partitions touches only the non-excluded partitions that the module has as directories |
| Magic.RootPartitionNeverSymlink | src/mount/magic.rs:118-126 | a root partition provided by the module is never a symlink in its system tree |
| Magic.MergeNodes | src/mount/magic.rs:159-175 | `high` keeps its path, type and replace flag when it has a module path and takes `low`'s otherwise; the child names are the union of both sides |
| Magic.MergeChild | src/mount/magic.rs:165-174 | a child on one side only is taken as it is, and a child on both sides is merged recursively |
| Magic.MergeInto | src/mount/magic.rs:159-175 | the in-place loop over `low`'s children computes `MergeNodes` |
| Magic.MergeOneChild | src/mount/magic.rs:165-174 | one round of the loop merges `low`'s child into `high`'s children, recursively when both have it, and keeps the loop invariant |
| Magic.MergedChildrenAll | src/mount/magic.rs:165-174 | once every child of `low` has been visited, the children are those of the merge |
| Magic.MergeLookup | src/mount/magic.rs:159-175 | at every path of the merged tree a node exists exactly when it exists on either side, and the attributes come from `high` when it provides the node |
| Magic.MergedExists | src/mount/magic.rs:182-195 | after folding the module trees, a path exists exactly when some module's tree has it |
| Magic.MergedProvider | src/mount/magic.rs:182-195 | whatever a provided node of the merged tree holds comes from some module's tree |
| Magic.FirstProviderWins | src/mount/magic.rs:182-195 | the earliest module that provides a path decides that path's attributes |
| Magic.RelocateMoves | src/mount/magic.rs:200-217 | each relocation check that holds moves that partition's node from the system tree to the root tree |
| Magic.RelocateAll | src/mount/magic.rs:207-217 | the loop over the built-in checks computes `Relocate` over all of them |
| Magic.RelocateFrame | src/mount/magic.rs:207-217 | every other child of the two trees is left alone |
| Magic.Assemble | src/mount/magic.rs:197-224 | nothing exactly when both merged trees are childless; otherwise the tree has `system` under its root |
| Magic.AssembleRelocates | src/mount/magic.rs:200-220 | `vendor`, `system_ext` and `product` move to root only when `/X` is a directory and `/system/X` a symlink, while `odm` needs only the directory |
| Magic.ModuleTreeList | src/mount/magic.rs:182-187 | one (root, system) pair per module, in module order |
| Magic.Roots | src/mount/magic.rs:188-194 | the root trees of the pairs, in order |
| Magic.Systems | src/mount/magic.rs:188-194 | the system trees of the pairs, in order |
| Magic.ReduceModules | src/mount/magic.rs:182-195 | the loop computes the left fold of the module trees |
| Magic.CollectAll | src/mount/magic.rs:177-225 | the result is the assembly of the merged trees |
| Magic.DecideTmpfs | src/mount/magic.rs:314-345 | a replace directory with a module path and no inherited tmpfs gets its own tmpfs; a child that needs a tmpfs but has no module path is marked skip; child names are kept |
| Magic.MountSteps | src/mount/magic.rs:366-404 | an error exactly when a live, non-replace directory cannot be listed; every child not marked skip is mounted once; live entries without a node are mirrored only under a tmpfs |
| Magic.WalkLive | src/mount/magic.rs:370-389 | the walk of the live directory takes out every listed child, mounts the ones not skipped and, under a tmpfs only, mirrors names no child has; no step twice |
| Magic.MountRemaining | src/mount/magic.rs:391-404 | every child left after the walk is mounted unless skipped, earlier steps kept, no step twice |
| Magic.DoMagicMount | src/mount/magic.rs:257-312 | a file is bound onto the work path under a tmpfs and onto the live path otherwise; a symlink is cloned into the work path; a whiteout does nothing; a file or symlink without a module path is an error |
| Magic.FileUnmountReportsAsWritten | src/mount/magic.rs:277-288 | the target is reported exactly when the bind fails |
| Magic.AsWrittenReportsTheWrongMount | src/mount/magic.rs:277-288 | as written, a successful bind is never reported and a failed one is |
| Magic.UnmountReports | src/mount/magic.rs:406-419 | a mount point is reported exactly when it has been mounted and unmounting is enabled, and at most once |
| Magic.DispatchReports | src/mount/magic.rs:269-297 | under the corrected rule, a node's dispatch reports its bind target exactly when it is a file with a module path, unmounting is enabled and the bind succeeds; nothing else is reported |
| Magic.AsWrittenAlwaysDiffers | src/mount/magic.rs:277-288 | with unmounting enabled, what the file bind reports as written never matches the rule, whether the bind succeeds or fails |
| Planner.CheckMeaningfulContent | src/core/planner.rs:130-138 | true exactly when some `base/part` exists and has at least one entry |
| Planner.PushesShape | src/core/planner.rs:59-68 | a module pushes onto a partition exactly when it is a target with a non-empty module directory, and only that directory |
| Planner.LayersFromContributors | src/core/planner.rs:39-78 | every layer of a partition is that partition's directory of a contributing module, and the list is non-empty exactly when some module contributes |
| Planner.AddLayer | src/core/planner.rs:63-65 | the layer is appended to the partition's list, a list is started when there is none, and other lists are unchanged |
| Planner.CollectLayers | src/core/planner.rs:36-78 | the layer map holds exactly the non-empty per-partition lists, in module order; the overlay ids, magic ids and magic paths are the sets the classification defines |
| Planner.PushModuleLayers | src/core/planner.rs:57-72 | the partitions' lists get this module's layers, and its id joins the overlay set exactly when it contributed |
| Planner.ResolveTarget | src/core/planner.rs:81-103 | a resolved target is always a directory |
| Planner.EmitOps | src/core/planner.rs:80-109 | one operation per partition with layers whose `/part` resolves to a directory, with that list and target; no partition twice |
| Planner.Generate | src/core/planner.rs:24-119 | targets are the built-in partitions then the configured ones; every operation carries its partition's non-empty layers and resolved target; the id and path lists hold exactly the classified sets; the id lists are sorted without duplicates |
| Executor.IdsWithMeans | src/core/executor.rs:98-157 | an id is collected for an outcome exactly when some operation with that outcome has a layer of that module |
| Executor.SucceededTargetsMeans | src/core/executor.rs:135-146 | unmount requests name exactly the targets of the successful operations |
| Executor.RwDirs | src/core/executor.rs:111-120 | upper and work directories are passed together, and only when both exist under the partition's rw directory |
| Executor.Execute | src/core/executor.rs:92-211 | one mount call per operation, in plan order, with the rw directories only when both exist; unmounts are queued for successful operations unless disabled; a failed operation's modules fall back to magic; a magic failure empties the magic set; results are sorted, duplicate-free and disjoint |
| Executor.MountEachOp | src/core/executor.rs:98-158 | the loop over the overlay operations computes the rounds of `Rounds` over every operation |
| Executor.RoundsMeans | src/core/executor.rs:98-158 | after any number of rounds: one mount call per operation so far, the successful targets queued unless disabled, successful modules in the overlay set and failed ones added to the planned magic modules |
| Executor.PrepareMount | src/core/executor.rs:99-121 | the mount call for an operation passes its layers, and the partition's upper and work directories only when both exist |
| Executor.ExecuteCovers | src/core/executor.rs:93-160 | while magic mount succeeds no module is lost; an overlay module is in no failed operation and is not planned for magic |
| Executor.LayersOf | src/core/executor.rs:53-63 | each layer is paired with its module id, or `unknown` |
| Executor.DiagnosePlan | src/core/executor.rs:38-90 | the critical issues come first, then the warnings of each existing layer's walk |
| Executor.WalkLayer | src/core/executor.rs:70-86 | the loop yields the warnings of the layer's walk |
| Executor.CriticalsMeans | src/core/executor.rs:41-51 | a critical issue is reported exactly for each operation whose target is missing |
| Executor.LinkWarningsMeans | src/core/executor.rs:70-86 | a warning is reported exactly for each dead absolute symlink of the walk, under the layer's module, at warning level |
| Executor.WarningsMeans | src/core/executor.rs:65-87 | a warning is reported exactly for each dead absolute symlink in the walk of each layer that exists; a missing layer adds nothing |
| OverlayFs.PopUntilFitsPrefix | src/mount/overlayfs/overlayfs.rs:50-59 | the pop loop leaves a prefix that fits 3000 bytes or has one layer left |
| OverlayFs.AsWrittenDropsStockRoot | src/mount/overlayfs/overlayfs.rs:33-59 | as written, with 128 module layers the stock root is cut off the list |
| OverlayFs.KeptModulesPrefix | src/mount/overlayfs/overlayfs.rs:39-59 | the kept module layers are the longest prefix that fits in 3000 characters beside the stock root, or none |
| OverlayFs.LayersKeepStockRoot | src/mount/overlayfs/overlayfs.rs:33-59 | the stock root is always the bottom layer, above it a prefix of the module layers, and at most 128 layers |
| OverlayFs.CapLayers | src/mount/overlayfs/overlayfs.rs:33-59 | the loop computes the capped list and its `:`-joined string |
| OverlayFs.EscapeHead | src/mount/overlayfs/overlayfs.rs:101 | an escaped value never starts with a bare comma |
| OverlayFs.EscapeRoundTrip | src/mount/overlayfs/overlayfs.rs:101-109 | reading an escaped value back gives the path |
| OverlayFs.EscapeKeeps | src/mount/overlayfs/overlayfs.rs:101-109 | escaping adds and removes no character other than `,` and `\` |
| OverlayFs.FallbackDataNul | src/mount/overlayfs/overlayfs.rs:101-116 | the option string holds a NUL, which `CString::new` refuses, exactly when one of the paths does |
| OverlayFs.RwPair | src/mount/overlayfs/overlayfs.rs:70-86 | upper and work are used together, and only when both are given and exist |
| OverlayFs.OverlayOutcome | src/mount/overlayfs/overlayfs.rs:79-119 | the mount succeeds through the new API, or else through the legacy call when the option string is a valid C string |
| OverlayFs.MountOverlayFs | src/mount/overlayfs/overlayfs.rs:25-120 | the request carries the capped layers, their joined string, the rw pair and the source; the legacy string is built exactly when the new API fails |
| OverlayFs.BindMount | src/mount/overlayfs/overlayfs.rs:122-156 | a recursive clone is moved into place, with the bind mount used only when the clone cannot be opened |
| OverlayFs.ChildLowersMeans | src/mount/overlayfs/overlayfs.rs:174-183 | a lower is listed exactly when it is a module root whose copy of the path is a directory, in module order |
| OverlayFs.PlanChild | src/mount/overlayfs/overlayfs.rs:165-186 | stock is bind-mounted exactly when no module has the path; a stock root that is not a directory, or a module entry that is not a directory, aborts silently; otherwise the overlay uses the directory lowers |
| OverlayFs.MountOverlayChild | src/mount/overlayfs/overlayfs.rs:158-200 | as planned; a failed overlay falls back to the stock bind; the mount point is queued exactly when the overlay or its fallback succeeds; the result is the child's outcome |
| OverlayFs.ChildMountSeq | src/mount/overlayfs/overlayfs.rs:216-225 | the mount points under root that are not ancestors of root, sorted without duplicates |
| OverlayFs.ChildOutcome | src/mount/overlayfs/overlayfs.rs:158-200 | a nested point succeeds when nothing is to be done, when its stock bind succeeds, or when its overlay or the stock-bind fallback succeeds |
| OverlayFs.MountOverlay | src/mount/overlayfs/overlayfs.rs:202-255 | the root is mounted only after the chdir and mountinfo succeed; the result fails exactly when the root mount fails or the root is reverted; the root is reverted exactly when the last attempted child fails, every earlier one having mounted; every restored point ordered before that child was attempted |
| OverlayFs.MountRootThenChildren | src/mount/overlayfs/overlayfs.rs:227-254 | the root is mounted exactly when its overlay succeeds; then the nested points are restored in order, and the first failing child reverts the root and fails the call |
| OverlayFs.MountChildren | src/mount/overlayfs/overlayfs.rs:229-253 | the attempted points are a prefix of the sorted points with a stock directory, all of them when nothing fails; every attempted child before the last mounted, and `failed` says the last one failed |
| OverlayFs.StopsAtFirstFailureMeans | src/mount/overlayfs/overlayfs.rs:238-252 | the loop fails exactly when some attempted child fails, and every child before the last one mounted |
| OverlayFs.AttemptedPrefix | src/mount/overlayfs/overlayfs.rs:229-253 | when the loop stops at a failing child, every restored point sorted before it was attempted |
| OverlayFs.CandidatesMeans | src/mount/overlayfs/overlayfs.rs:229-236 | a point is a candidate exactly when it is in the sorted list and its stock directory exists |
| OverlayFs.CandidatesSorted | src/mount/overlayfs/overlayfs.rs:229-236 | the candidates of a strictly sorted list are strictly sorted |
| Overlay.DataShape | src/mount/overlay.rs:68-71 | the legacy option string names the lower directories first, verbatim and unescaped, then upper and work only when both exist |
| Overlay.DataNul | src/mount/overlay.rs:68-80 | the legacy option string has a NUL byte exactly when one of the paths it names has one |
| Overlay.MountOutcome | src/mount/overlay.rs:44-80 | the mount succeeds through the new API, or else through the legacy call when the option string is a valid C string |
| Overlay.MountOverlayFs | src/mount/overlay.rs:15-88 | the lower string is the layers then the stock root joined with `:` and not truncated; the mount is registered for unmounting exactly when it succeeds and unmounting is enabled |
| Overlay.BindMount | src/mount/overlay.rs:90-121 | a recursive clone moved into place, with no fallback |
| Overlay.MountOverlay | src/mount/overlay.rs:123-189 | a missing root is skipped without error; nested mounts are restored in sorted order; their failures are only logged; registrations happen only when unmounting is enabled |
| Overlay.BindChildren | src/mount/overlay.rs:167-187 | exactly the nested mount points with a stock directory are bound back, in strictly sorted order; the successful binds are registered exactly when unmounting is enabled |
| Partitions.LowersMeans | src/mount/overlayfs/mod.rs:36-72 | a layer is listed exactly when it is a directory of an eligible module: a directory, not disabled, wanted, without `skip_mount` |
| Partitions.InitLowerdirMap | src/mount/overlayfs/mod.rs:25-32 | the keys are the five fixed partitions plus the extra ones, each starting empty |
| Partitions.AddPartitionLayers | src/mount/overlayfs/mod.rs:64-72 | each fixed partition's list gets the module's directory for it when that is a directory; other lists are unchanged |
| Partitions.GatherLowers | src/mount/overlayfs/mod.rs:34-73 | the system list and the map hold exactly the eligible modules' layers in listing order; extra partitions stay empty |
| Partitions.GatherModule | src/mount/overlayfs/mod.rs:34-72 | one listing entry adds an eligible module's `system` directory and its fixed partition directories that exist, and changes nothing for any other entry |
| Partitions.MountPartition | src/mount/overlayfs/mod.rs:89-115 | skipped exactly for an empty layer list or a symlinked partition; upper and work under the rw directory exactly when it exists |
| Partitions.ExtraPartitionSkipped | src/mount/overlayfs/mod.rs:29-97 | a partition named only among the extras keeps an empty layer list and is skipped by `mount_partition` |
| Partitions.MountSystemlessly | src/mount/overlayfs/mod.rs:16-86 | fails exactly when the module directory cannot be read; `system` is mounted first, then every partition of the map; per-partition failures are only logged |
| Partitions.PartitionMountedIff | src/mount/overlayfs/mod.rs:59-112 | a partition is overlaid exactly when it is not a symlink and some eligible module has it as a directory |
| TryUmount.Sent | src/try_umount.rs:28-34 | a path already queued is ignored, a new one is appended; the queue's elements are the old ones plus the path |
| TryUmount.SentIdempotent | src/try_umount.rs:28-34 | a repeated request changes nothing, and a queue without duplicates keeps none |
| TryUmount.Attempts | src/try_umount.rs:47-56 | flags 0 first, and flags 2 only when that fails |
| TryUmount.UnmountRegistry.constructor | src/try_umount.rs:13-15 | an empty history and queue |
| TryUmount.UnmountRegistry.SendUnmountable | src/try_umount.rs:17-36 | always succeeds; nothing changes without KernelSU; otherwise the queue is `Sent` of the old queue, and every queued path is in the history at most once |
| TryUmount.UnmountRegistry.Commit | src/try_umount.rs:38-59 | always succeeds; nothing is tried without KernelSU; otherwise the two-attempt order, with the flags left at the last one tried |
| Susfs.Zeros | src/magic_mount/try_umount.rs:79 | a zero-filled buffer of the given length |
| Susfs.CStr | src/magic_mount/try_umount.rs:79-84 | the C string a buffer holds is its prefix before the first NUL |
| Susfs.PathnameRoundTrip | src/magic_mount/try_umount.rs:75-84 | a path shorter than 256 bytes without NUL reads back unchanged from the 256-byte buffer |
| Susfs.FillPathname | src/magic_mount/try_umount.rs:79-84 | the array loop yields the zeroed buffer with the path over its start |
| Susfs.SendUnmountable | src/magic_mount/try_umount.rs:45-108 | an error exactly for a path with a NUL; the KernelSU request always has flags 2 and mode 1; the SUSFS request exists only for a canonical path under 256 bytes, with mode 1 and the path then NUL padding |
| Xattr.LGetFileCon | src/utils/fs/xattr.rs:82-92 | a label is found exactly when the file has one; the value is the raw label with NULs stripped from both ends: a slice of it, only NULs outside, no NUL at either end |
| Xattr.LSetFileCon | src/utils/fs/xattr.rs:66-79 | the label write is issued and the call succeeds whatever the kernel answers |
| Xattr.CopiedLabel | src/utils/fs/xattr.rs:25-32 | the source label unless it mentions rootfs or is missing, in which case the system label |
| Xattr.LoopCopiesMeans | src/utils/fs/xattr.rs:33-47 | a loop write is exactly a readable `trusted.overlay.*` attribute other than `opaque` |
| Xattr.CopyExtendedAttributes | src/utils/fs/xattr.rs:22-51 | always succeeds; the label first, then `opaque` when present, then the loop's copies in listing order |
| Xattr.CopyListed | src/utils/fs/xattr.rs:36-47 | the listing loop writes exactly `LoopCopies`: the readable overlay attributes other than `opaque`, in listing order |
| Xattr.Setting | src/utils/fs/xattr.rs:109-123 | none exactly for a comment or a line without `=`; otherwise the trimmed text around the first `=` |
| Xattr.NoneEnablesStep | src/utils/fs/xattr.rs:109-123 | the scan's invariant: no line read so far sets `CONFIG_TMPFS_XATTR=y` |
| Xattr.IsOverlayXattrSupported | src/utils/fs/xattr.rs:99-127 | always a value; true exactly when some line sets `CONFIG_TMPFS_XATTR` to `y` |
| Xattr.LineEnables | src/utils/fs/xattr.rs:109-120 | one configuration line enables tmpfs extended attributes exactly when its trimmed setting is `CONFIG_TMPFS_XATTR` = `y` |
| Xattr.SettingOfPlainLine | src/utils/fs/xattr.rs:112-118 | a line without `=` and a commented-out setting never set anything, and a plain setting sets its key and value |
| Xattr.GuessContext | src/utils/fs/xattr.rs:129-149 | HAL exactly for library paths under `/vendor` or `/odm`, vendor for the rest of those trees, system for everything else |
| Xattr.ApplySystemContext | src/utils/fs/xattr.rs:151-193 | `upperdir` and `workdir` take the parent's label; a meaningful existing label is kept exactly in the other cases; rootfs is never chosen there; any other chosen label comes from an existing file |
| Xattr.SystemCounterpartLabel | src/utils/fs/xattr.rs:160-178 | when the file keeps no label of its own, an existing labelled system counterpart lends its label, the rootfs label mapped to the system one |
| Xattr.VendorParentLabel | src/utils/fs/xattr.rs:169-189 | without a system counterpart, under a vendor-labelled system directory, the HAL label is chosen exactly for library paths under the vendor or odm tree |
| Scanner.PropValueMeans | src/scanner.rs:24-31 | a lookup finds nothing exactly when no line starts with the key and has `=`, and otherwise gives the trimmed text after the first `=` of the first such line |
| Scanner.ReadProp | src/scanner.rs:20-32 | an unreadable file gives none; otherwise the loop returns the lookup above |
| Scanner.LongerKeyAnswers | src/scanner.rs:26 | the key test is a text prefix: a line whose key merely starts with the wanted key answers it |
| Scanner.InfoOf | src/scanner.rs:51-68 | the name defaults to the id and version and description to empty; `disabled` comes from `disable` or `remove`, `skip` from `skip_mount` |
| Scanner.ListedMeans | src/scanner.rs:44-50 | a record is listed exactly when its entry is a directory holding `module.prop` |
| Scanner.ListedDistinctIds | src/scanner.rs:44-70 | distinct entry names give records with distinct ids |
| Scanner.InsertById | src/scanner.rs:73 | insertion keeps the list sorted by id and adds exactly the record |
| Scanner.SortById | src/scanner.rs:73 | the result is sorted by id and a permutation of the input |
| Scanner.ScanModules | src/scanner.rs:34-76 | an unreadable directory gives nothing; otherwise a sorted permutation of the listed records |
| Storage.Wrap64 | src/core/storage.rs:76-82 | `u64` arithmetic wraps and leaves representable values alone |
| Storage.TruncU8 | src/core/storage.rs:82 | `as u8` keeps the low eight bits |
| Storage.GetUsage | src/core/storage.rs:74-88 | a failed `statvfs` gives zeros; a zero total gives a zero percentage; the figures are `u64` and `u8` |
| Storage.GetUsageExact | src/core/storage.rs:76-84 | without overflow the total and used bytes are exact and the percentage is at most 100 |
| Storage.UsageFromFigures | src/core/storage.rs:76-84 | on figures that fit in 64 bits nothing wraps, and the percentage fits in a byte and is at most 100 |
| Storage.CalculateTotalSize | src/core/storage.rs:90-104 | succeeds exactly when every directory below can be read, and then gives the bytes of the regular files below |
| Storage.SizeAllAppend | src/core/storage.rs:93-101 | files in different subtrees add up |
| Storage.OtherEntriesIgnored | src/core/storage.rs:96-100 | symlinks and special entries never add to the size |
| Storage.GrowSize | src/core/storage.rs:229 | a new image is 128 MiB plus the modules' size |
| Storage.WithExtension | src/core/storage.rs:152 | the result ends with the new extension |
| Storage.LastIndex | src/core/storage.rs:152 | one past the last occurrence, with none after it |
| Storage.StorageHandle.constructor | src/core/storage.rs:24-28 | the handle holds the given mount point, mode and backing image |
| Storage.StorageHandle.Commit | src/core/storage.rs:31-60 | only `erofs_staging` changes, to `erofs`, and only when the image exists and packing, detaching and mounting succeed; every other mode is left alone and succeeds |
| Storage.TrySetupTmpfs | src/core/storage.rs:194-208 | never fails; true exactly when the tmpfs mounts and supports extended attributes; a tmpfs without them is unmounted |
| Storage.Setup | src/core/storage.rs:122-192 | EROFS staging with `img.erofs` when requested and supported; else tmpfs when not forced to ext4 and it works; else ext4; the storage is queued for unmounting exactly when it is set up and unmounting is enabled |
| Storage.SupportedModes | src/core/storage.rs:339-347 | ext4 and erofs always, with tmpfs first exactly when a test tmpfs supports extended attributes |
| Engine.New | src/core/mod.rs:50-55 | a new engine holds the configuration in the initial stage |
| Engine.InitStorage | src/core/mod.rs:57-77 | succeeds exactly when setup does, carrying the configuration and the storage |
| Engine.ScanAndSync | src/core/mod.rs:81-97 | succeeds exactly when scanning and syncing do, carrying the configuration and storage with the modules |
| Engine.GeneratePlan | src/core/mod.rs:101-118 | succeeds exactly when planning does, carrying everything produced so far with the plan |
| Engine.Execute | src/core/mod.rs:122-136 | succeeds exactly when execution does, carrying everything produced so far with the result |
| Engine.ActiveMounts | src/core/mod.rs:163-169 | the partition names of the overlay operations, in plan order |
| Engine.Finalize | src/core/mod.rs:140-189 | always succeeds; the nuke is attempted exactly on ext4 storage with the nuke enabled and is active only when it succeeds; the state records the storage, the result's ids, the active mounts and the usage |
| Engine.Pipeline | src/core/mod.rs:49-137 | the pipeline succeeds exactly when every stage does, and ends holding the configuration, storage, modules, plan and result unchanged |

## Left out

- Kernel and system calls are outcomes given as parameters or as the `Kernel` oracle: fsopen, fsconfig, fsmount, move_mount, open_tree, mount, umount, mount_change, mount_remount, chmod, chown, the extended-attribute calls, the KernelSU and SUSFS ioctl and prctl, and `statvfs`.
- File system facts are the `FsView` oracle. This covers `exists`, `is_dir`, `is_symlink`, `canonicalize` and directory listings. A listing holds only the entries that could be read, so entries `flatten()` drops are simply absent.
- Lengths are counted in characters, not UTF-8 bytes. Non-UTF-8 paths and the `to_string_lossy` replacement are not modelled.
- Strs.Parent and Storage.WithExtension ignore the trailing-slash and `..` subtleties of `Path`. Strs.FileName treats `..` as a name.
- Lock poisoning, `unwrap` panics and the global `Mutex`/`LazyLock`/`OnceLock`/atomic scaffolding are out of scope. The registry is one single-threaded object.
- The `zcat` decompression of the kernel configuration is a parameter: the configuration text. Its failure and the non-Linux `Ok(true)` branch are left out.
- The external commands e2fsck, mkfs.ext4 and `mount -t ext4`, `check_image` and the internals of `setup_ext4_image` (repair, relabel walk) are folded into the `ext4` outcome of Storage.Setup. The unmount of an already mounted base at the start of `setup` and the propagation changes are not modelled.
- `finalize_storage_permissions`, `set_overlay_opaque` and the JSON and state-file parts of `print_status` are left out. Only its supported-modes list is modelled.
- Configuration file loading and saving (`from_file`, `load_default`, `save_to_file`), serde/TOML/JSON round trips and src/core/state.rs are library calls and are not part of this model.
- `utils::extract_module_id`, `validate_module_id`, `hybrid_mnt_dir`, `KSU_OVERLAY_SOURCE` and the magic mount entry point are not shown. They appear as function parameters or string parameters.
- `inventory::Module` is not shown; Planner.Module has the fields the planner reads.
- The granary snapshots and the sync step are not shown. Engine.ScanAndSync takes their outcomes as parameters.
- The state save of `finalize` and its description update are a boolean outcome that is only logged.
- `ksu_nuke_sysfs` is an oracle outcome.
- Two call sites disagree with the shown definitions: `storage::setup` at src/core/mod.rs:62-69 passes six arguments to a seven-parameter function, and `overlayfs::mount_overlay` at src/mount/overlayfs/mod.rs:114 passes four arguments to the five-parameter src/mount/overlayfs/overlayfs.rs:202 (the call at src/core/executor.rs:128 matches it). Engine.InitStorage takes the setup result as a parameter. The engine and executor use the shown definitions' signatures.
- Magic mount: the recursion of `do_magic_mount` through `handle_directory` is modelled one level at a time. DoMagicMount dispatches one node, and DecideTmpfs and MountSteps cover one directory. The whole-tree descent, `mount_partitions`, `clone_symlink`, `mount_mirror`, the chmod/chown/label copy of a new tmpfs directory and the mount counters are not modelled.
- `NodeFileType::from` of live metadata is the `RealDir` oracle in Magic.
- Magic.DoMagicMount: its error condition covers only a file or symlink without a module path. The failures of `File::create` on the work path and of the bind itself (src/mount/magic.rs:271, 278) are not modelled; the result names the mount to perform.
- Magic.MountSteps: its error condition covers only a directory that cannot be listed. The failures of the tmpfs self-bind (src/mount/magic.rs:367), of a child's `do_magic_mount` (magic.rs:383, 402) and of the final move and propagation change (magic.rs:413-414) are not modelled; MountSteps computes the steps of one directory, not their outcomes.
- OverlayFs.MountOverlayFs: the request carries the corrected layer list (the stock root kept as the bottom layer, OverlayFs.Layers and OverlayFs.CapLayers), not the list built as written at src/mount/overlayfs/overlayfs.rs:33-59. OverlayFs.MountOverlayChild, OverlayFs.MountRootThenChildren and OverlayFs.MountOverlay inherit it. The as-written list and what it drops are under Findings.
- The child order of `handle_directory` follows an explicit order parameter, because `HashMap` iteration order is unspecified. Results are stated for every order.
- Node trees are values. The source's in-place `&mut` updates of owned trees are modelled as functional updates returning the new tree. This has the same meaning, because the trees are not shared.
- Partitions.MountSystemlessly mounts the partitions of the map in an order the model leaves open, because it is a `HashMap`. An extra partition, `system` included, keeps an empty layer list (src/mount/overlayfs/mod.rs:29-31, 59-69), so `mount_partition` returns without mounting it (mod.rs:94-97); Partitions.ExtraPartitionSkipped states this.
- Scanner.ScanModules requires the listing names to be distinct. The operating system guarantees this for one directory.
- Storage.CalculateTotalSize: the `u64` total is unbounded, so a sum beyond 2^64 (a debug-build panic or a release-build wrap) is not modelled.
- Storage.GetUsage models a release build, where `u64` arithmetic wraps. A debug build would panic on overflow instead.
- Susfs.SendUnmountable: the `as_str()?` failure for a non-UTF-8 canonical path is not modelled, because paths are text here.
- TryUmount.UnmountRegistry.Commit: the `ksu` crate's `TryUmount` internals are not shown, so whether an unmount clears the queue is left open and the queue is kept.
- OverlayFs.Unescape models the kernel's option parser only for `\,`.
- The Debug tree printer of `Node` is formatting only.

## Findings

| source | as written | input that shows it | evidently intended | confidence | as-written member | corrected member |
|---|---|---|---|---|---|---|
| src/mount/magic.rs:277-288 | `send_unmountable(target_path)` sits inside the `with_context` closure of `mount_bind`. That closure runs only when the bind fails, so a failed bind is queued for unmounting and a successful one never is | any regular file node with a module path, with unmounting enabled and a bind that succeeds | queue the file's mount point after a successful bind, as `handle_directory` does for its tmpfs (src/mount/magic.rs:416-419) | medium, not executed | Magic.FileUnmountReportsAsWritten, Magic.AsWrittenReportsTheWrongMount, Magic.AsWrittenAlwaysDiffers | Magic.UnmountReports, Magic.DispatchReports |
| src/mount/overlayfs/overlayfs.rs:33-59 | the stock root `lowest` is appended last, and then `truncate(128)` and the `pop` loop remove layers from the end, so the stock root is the first layer dropped | 128 module layers, none equal to the stock root, or module paths long enough to exceed 3000 bytes | drop module layers and always keep the stock root as the bottom layer | medium, not executed | OverlayFs.AsWrittenDropsStockRoot | OverlayFs.LayersKeepStockRoot, OverlayFs.CapLayers |
