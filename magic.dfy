/** Magic mount: building one file tree per module, merging the trees with the
    earlier module winning, relocating partitions between `/system/X` and `/X`,
    and the decisions each directory makes while it is mounted. */
module Magic {
  import opened Wrappers
  import opened Strs
  import opened MountNode
  import opened FsView

  const RootPartitions: seq<string> := ["vendor", "system_ext", "product", "odm"]

  /** A module directory as `process_module` sees it. */
  datatype ModuleDir = ModuleDir(
    path: string,
    fileName: Option<string>,        // the last path component, when it is text
    markers: set<string>,            // which marker files exist in the directory
    parts: map<string, DirEntry>)    // `path/<p>` for each `p` that is a directory

  /** A `disable`, `remove` or `skip_mount` marker switches the module off. */
  predicate Inactive(m: ModuleDir) {
    "disable" in m.markers || "remove" in m.markers || "skip_mount" in m.markers
  }

  predicate IsExcluded(excl: Option<set<string>>, p: string) {
    excl.Some? && p in excl.value
  }

  /** The module contributes nothing: it is switched off, or its name is not a
      valid module id. */
  predicate Ignored(m: ModuleDir, validId: string -> bool) {
    Inactive(m) || (m.fileName.Some? && !validId(m.fileName.value))
  }

  // ---------------------------------------------------------------------------
  // process_module

  /** The child named `p`, or a fresh root node of that name. */
  function ChildOrRoot(parent: Node, p: string): (r: Node)
    ensures p in parent.children ==> r == parent.children[p]
    ensures p !in parent.children ==> r == NewRoot(p)
  {
    if p in parent.children then parent.children[p] else NewRoot(p)
  }

  /** A symlink node that a root partition is attached to becomes a directory
      that no module provides; any other node is kept. */
  function AsPartitionDir(n: Node): (r: Node)
    ensures r.fileType != Symlink
    ensures n.fileType == Symlink ==> r == n.(fileType := Directory, modulePath := None)
    ensures n.fileType != Symlink ==> r == n
  {
    if n.fileType == Symlink then n.(fileType := Directory, modulePath := None) else n
  }

  /** Collects the module directory `dir` into the child `p` of `parent`. */
  function Attach(parent: Node, p: string, dir: DirEntry, fromLink: bool): Node {
    var node := if fromLink then AsPartitionDir(ChildOrRoot(parent, p)) else ChildOrRoot(parent, p);
    parent.(children := parent.children[p := Collect(node, dir, |dir.entries|).0])
  }

  /** The first `k` root partitions attached under the system tree. */
  function AttachRootParts(system: Node, m: ModuleDir, excl: Option<set<string>>, k: nat): Node
    requires k <= |RootPartitions|
  {
    if k == 0 then system
    else
      var s := AttachRootParts(system, m, excl, k - 1);
      var p := RootPartitions[k - 1];
      if IsExcluded(excl, p) || p !in m.parts then s else Attach(s, p, m.parts[p], true)
  }

  /** An extra partition is attached under the root tree when it is not
      `system` or a root partition, is not excluded, `/p` is a directory, the
      module has a `p` directory, and `/system/p` is missing or a symlink. */
  predicate ExtraEligible(p: string, m: ModuleDir, excl: Option<set<string>>, host: FsView) {
    && p !in RootPartitions && p != "system" && !IsExcluded(excl, p)
    && host.IsDir(PathJoin("/", p)) && p in m.parts
    && (!host.Exists(PathJoin("/system", p)) || host.IsSymlink(PathJoin("/system", p)))
  }

  /** The first `k` extra partitions attached under the root tree. */
  function AttachExtras(root: Node, extra: seq<string>, m: ModuleDir, excl: Option<set<string>>,
                        host: FsView, k: nat): Node
    requires k <= |extra|
  {
    if k == 0 then root
    else
      var r := AttachExtras(root, extra, m, excl, host, k - 1);
      var p := extra[k - 1];
      if ExtraEligible(p, m, excl, host) then Attach(r, p, m.parts[p], false) else r
  }

  /** The system tree of a module that is not ignored. */
  function SystemTree(m: ModuleDir, excl: Option<set<string>>): Node {
    var system := NewRoot("system");
    var s := if !IsExcluded(excl, "system") && "system" in m.parts
             then Collect(system, m.parts["system"], |m.parts["system"].entries|).0
             else system;
    AttachRootParts(s, m, excl, |RootPartitions|)
  }

  /** The (root, system) pair that `process_module` builds for one module. */
  function ModuleTrees(m: ModuleDir, extra: seq<string>, excl: Option<set<string>>,
                       host: FsView, validId: string -> bool): (Node, Node)
  {
    if Ignored(m, validId) then (NewRoot(""), NewRoot("system"))
    else (AttachExtras(NewRoot(""), extra, m, excl, host, |extra|), SystemTree(m, excl))
  }

  /** `process_module`: the root and system trees of one module. */
  method ProcessModule(m: ModuleDir, extra: seq<string>, excl: Option<set<string>>,
                       host: FsView, validId: string -> bool) returns (root: Node, system: Node)
    ensures (root, system) == ModuleTrees(m, extra, excl, host, validId)
    ensures Ignored(m, validId) ==> root == NewRoot("") && system == NewRoot("system")
    ensures forall p :: p in root.children ==> p in extra && ExtraEligible(p, m, excl, host)
  {
    root := NewRoot("");
    system := NewRoot("system");
    if Inactive(m) {
      return;
    }
    if m.fileName.Some? && !validId(m.fileName.value) {
      return;
    }
    if !IsExcluded(excl, "system") && "system" in m.parts {
      var found;
      system, found := CollectModuleFiles(system, m.parts["system"]);
    }
    system := AttachRootPartitions(system, m, excl);
    root := AttachExtraPartitions(extra, m, excl, host);
    ExtrasEligible(NewRoot(""), extra, m, excl, host, |extra|);
  }

  /** The loop of `process_module` over the root partitions. */
  method AttachRootPartitions(system0: Node, m: ModuleDir, excl: Option<set<string>>) returns (system: Node)
    ensures system == AttachRootParts(system0, m, excl, |RootPartitions|)
  {
    system := system0;
    var i := 0;
    while i < |RootPartitions|
      invariant 0 <= i <= |RootPartitions|
      invariant system == AttachRootParts(system0, m, excl, i)
    {
      var p := RootPartitions[i];
      if !IsExcluded(excl, p) && p in m.parts {
        var node := if p in system.children then system.children[p] else NewRoot(p);
        if node.fileType == Symlink {
          node := node.(fileType := Directory, modulePath := None);
        }
        var found;
        node, found := CollectModuleFiles(node, m.parts[p]);
        system := system.(children := system.children[p := node]);
      }
      i := i + 1;
    }
  }

  /** The loop of `process_module` over the extra partitions. */
  method AttachExtraPartitions(extra: seq<string>, m: ModuleDir, excl: Option<set<string>>, host: FsView)
    returns (root: Node)
    ensures root == AttachExtras(NewRoot(""), extra, m, excl, host, |extra|)
  {
    root := NewRoot("");
    var j := 0;
    while j < |extra|
      invariant 0 <= j <= |extra|
      invariant root == AttachExtras(NewRoot(""), extra, m, excl, host, j)
    {
      var p := extra[j];
      if p !in RootPartitions && p != "system" && !IsExcluded(excl, p)
         && host.IsDir(PathJoin("/", p)) && p in m.parts
         && (!host.Exists(PathJoin("/system", p)) || host.IsSymlink(PathJoin("/system", p)))
      {
        var node := if p in root.children then root.children[p] else NewRoot(p);
        var found;
        node, found := CollectModuleFiles(node, m.parts[p]);
        root := root.(children := root.children[p := node]);
      }
      j := j + 1;
    }
  }

  /** Only eligible extra partitions are ever added to the root tree. */
  lemma {:induction false} ExtrasEligible(root: Node, extra: seq<string>, m: ModuleDir,
                                          excl: Option<set<string>>, host: FsView, k: nat)
    requires k <= |extra|
    ensures forall p :: p in AttachExtras(root, extra, m, excl, host, k).children ==>
      p in root.children || (p in extra && ExtraEligible(p, m, excl, host))
  {
    if k > 0 {
      ExtrasEligible(root, extra, m, excl, host, k - 1);
    }
  }

  /** Attaching the root partitions touches only the partitions that are not
      excluded and that the module has; each of those becomes the existing child
      (or a fresh root), turned from a symlink into a directory, with its own
      attributes kept by the collection. */
  lemma {:induction false} RootPartsAttached(system: Node, m: ModuleDir, excl: Option<set<string>>,
                                             k: nat, p: string)
    requires k <= |RootPartitions|
    ensures var r := AttachRootParts(system, m, excl, k);
      if p in RootPartitions[..k] && !IsExcluded(excl, p) && p in m.parts then
        p in r.children && SameHead(r.children[p], AsPartitionDir(ChildOrRoot(system, p)))
      else
        (p in r.children <==> p in system.children)
        && (p in system.children ==> r.children[p] == system.children[p])
  {
    if k > 0 {
      RootPartsAttached(system, m, excl, k - 1, p);
      var s := AttachRootParts(system, m, excl, k - 1);
      var q := RootPartitions[k - 1];
      if q == p && !IsExcluded(excl, p) && p in m.parts {
        assert p !in RootPartitions[..k - 1];
        assert ChildOrRoot(s, p) == ChildOrRoot(system, p);
        var node := AsPartitionDir(ChildOrRoot(s, p));
        CollectKeepsExisting(node, m.parts[p], |m.parts[p].entries|);
      }
      assert RootPartitions[..k] == RootPartitions[..k - 1] + [q];
    }
  }

  /** In a module's system tree, every root partition the module provides is a
      directory node or the node it already had, never a symlink. */
  lemma RootPartitionNeverSymlink(m: ModuleDir, excl: Option<set<string>>, p: string)
    requires p in RootPartitions && !IsExcluded(excl, p) && p in m.parts
    ensures p in SystemTree(m, excl).children
    ensures SystemTree(m, excl).children[p].fileType != Symlink
  {
    var s := if !IsExcluded(excl, "system") && "system" in m.parts
             then Collect(NewRoot("system"), m.parts["system"], |m.parts["system"].entries|).0
             else NewRoot("system");
    RootPartsAttached(s, m, excl, |RootPartitions|, p);
    assert RootPartitions[..|RootPartitions|] == RootPartitions;
  }

  // ---------------------------------------------------------------------------
  // merge_nodes

  /** The attributes `merge_nodes` transfers as one unit. */
  function Attrs(n: Node): (Option<string>, NodeFileType, bool) {
    (n.modulePath, n.fileType, n.replace)
  }

  /** `merge_nodes(high, low)`: `high` keeps its attributes when a module
      provides it and takes `low`'s otherwise; the children are the union of
      both sides, names only in `low` are taken as they are, and shared names
      are merged recursively. */
  function MergeNodes(high: Node, low: Node): (r: Node)
    decreases low, 1
    ensures high.modulePath.Some? ==> Attrs(r) == Attrs(high)
    ensures high.modulePath.None? ==> Attrs(r) == Attrs(low)
    ensures r.name == high.name && r.skip == high.skip
    ensures r.children.Keys == high.children.Keys + low.children.Keys
  {
    var head := if high.modulePath.None?
                then high.(modulePath := low.modulePath, fileType := low.fileType, replace := low.replace)
                else high;
    head.(children := map n | n in high.children.Keys + low.children.Keys :: MergeChild(high, low, n))
  }

  /** The merged child `n`: merged recursively when both sides have it, and
      otherwise the one side's child as it is. */
  function MergeChild(high: Node, low: Node, n: string): (r: Node)
    requires n in high.children || n in low.children
    decreases low, 0
    ensures n in high.children && n !in low.children ==> r == high.children[n]
    ensures n !in high.children && n in low.children ==> r == low.children[n]
  {
    if n in low.children then
      (if n in high.children then MergeNodes(high.children[n], low.children[n]) else low.children[n])
    else high.children[n]
  }

  /** `merge_nodes` as the source runs it: `high` is updated in place, one
      child of `low` at a time, in whatever order the map yields them. */
  method MergeInto(high: Node, low: Node) returns (r: Node)
    ensures r == MergeNodes(high, low)
    decreases low, 1
  {
    var kids := high.children;
    var rest := low.children.Keys;
    while rest != {}
      invariant MergeProgress(high, low, kids, rest)
      decreases rest
    {
      var n :| n in rest;
      kids := MergeOneChild(high, low, kids, rest, n);
      rest := rest - {n};
    }
    MergedChildrenAll(high, low, kids);
    r := high.(children := kids);
    if high.modulePath.None? {
      r := r.(modulePath := low.modulePath, fileType := low.fileType, replace := low.replace);
    }
  }

  /** The children of `high` once the children of `low` outside `rest` have
      been merged in. */
  ghost predicate MergeProgress(high: Node, low: Node, kids: map<string, Node>, rest: set<string>) {
    && rest <= low.children.Keys
    && kids.Keys == high.children.Keys + (low.children.Keys - rest)
    && (forall n :: n in kids && (n !in low.children || n in rest) ==> kids[n] == high.children[n])
    && (forall n :: n in low.children && n !in rest ==> kids[n] == MergeChild(high, low, n))
  }

  /** One round of `merge_nodes`'s loop: the child `n` of `low` is merged
      into `high`'s children, recursively when `high` has it too. */
  method MergeOneChild(high: Node, low: Node, kids: map<string, Node>, rest: set<string>, n: string)
    returns (kids': map<string, Node>)
    requires MergeProgress(high, low, kids, rest) && n in rest
    ensures MergeProgress(high, low, kids', rest - {n})
    decreases low, 0
  {
    var lowChild := low.children[n];
    if n in kids {
      var merged := MergeInto(kids[n], lowChild);
      kids' := kids[n := merged];
    } else {
      kids' := kids[n := lowChild];
    }
  }

  lemma MergedChildrenAll(high: Node, low: Node, kids: map<string, Node>)
    requires kids.Keys == high.children.Keys + low.children.Keys
    requires forall n :: n in kids && n !in low.children ==> kids[n] == high.children[n]
    requires forall n :: n in low.children ==> kids[n] == MergeChild(high, low, n)
    ensures kids == MergeNodes(high, low).children
  {
    var merged := MergeNodes(high, low).children;
    forall n | n in merged
      ensures merged[n] == kids[n]
    {
    }
  }

  /** The node reached from `n` by following the child names in `path`. */
  function Lookup(n: Node, path: seq<string>): Option<Node>
    decreases |path|
  {
    if path == [] then Some(n)
    else if path[0] in n.children then Lookup(n.children[path[0]], path[1..])
    else None
  }

  /** A module provides the node at this place. */
  predicate Provides(n: Option<Node>) {
    n.Some? && n.value.modulePath.Some?
  }

  /** At every path of the merged tree: a node exists iff it exists on either
      side; a node `high` provides keeps its attributes; a node `high` has but
      does not provide takes `low`'s; a node only one side has is that side's. */
  lemma {:induction false} MergeLookup(h: Node, l: Node, path: seq<string>)
    ensures var m := Lookup(MergeNodes(h, l), path);
      var a := Lookup(h, path);
      var b := Lookup(l, path);
      && (m.Some? <==> a.Some? || b.Some?)
      && (Provides(a) ==> Attrs(m.value) == Attrs(a.value))
      && (a.Some? && !Provides(a) && b.Some? ==> Attrs(m.value) == Attrs(b.value))
      && (a.Some? && b.None? ==> m == a)
      && (a.None? ==> m == b)
    decreases |path|
  {
    if path != [] {
      var n := path[0];
      if n in h.children && n in l.children {
        MergeLookup(h.children[n], l.children[n], path[1..]);
      }
    }
  }

  /** The `reduce` over the module trees: the first `k` trees merged left to
      right. */
  function Merged(trees: seq<Node>, k: nat): Node
    requires 1 <= k <= |trees|
  {
    if k == 1 then trees[0] else MergeNodes(Merged(trees, k - 1), trees[k - 1])
  }

  /** Folding the trees in module order, the earliest module that provides a
      path decides its attributes, and a path exists iff some tree has it. */
  lemma {:induction false} MergedExists(trees: seq<Node>, k: nat, path: seq<string>)
    requires 1 <= k <= |trees|
    ensures Lookup(Merged(trees, k), path).Some? <==> exists j :: 0 <= j < k && Lookup(trees[j], path).Some?
  {
    if k > 1 {
      MergedExists(trees, k - 1, path);
      MergeStep(trees, k, path);
      if Lookup(trees[k - 1], path).Some? {
        assert 0 <= k - 1 < k;
      }
      if exists j :: 0 <= j < k && Lookup(trees[j], path).Some? {
        var j :| 0 <= j < k && Lookup(trees[j], path).Some?;
        assert j < k - 1 || Lookup(trees[k - 1], path).Some?;
      }
    }
  }

  /** One step of the fold: `MergeLookup` for the tree merged so far and the
      next module's tree. */
  lemma MergeStep(trees: seq<Node>, k: nat, path: seq<string>)
    requires 2 <= k <= |trees|
    ensures var m := Lookup(Merged(trees, k), path);
      var a := Lookup(Merged(trees, k - 1), path);
      var b := Lookup(trees[k - 1], path);
      && (m.Some? <==> a.Some? || b.Some?)
      && (Provides(a) ==> Attrs(m.value) == Attrs(a.value))
      && (a.Some? && !Provides(a) && b.Some? ==> Attrs(m.value) == Attrs(b.value))
      && (a.None? ==> m == b)
  {
    MergeLookup(Merged(trees, k - 1), trees[k - 1], path);
  }

  /** Whatever attributes the merged tree holds at a provided path, some
      module tree holds them there too. */
  lemma {:induction false} MergedProvider(trees: seq<Node>, k: nat, path: seq<string>)
    requires 1 <= k <= |trees|
    ensures Provides(Lookup(Merged(trees, k), path)) ==>
      exists j :: 0 <= j < k && Provides(Lookup(trees[j], path))
        && Attrs(Lookup(trees[j], path).value) == Attrs(Lookup(Merged(trees, k), path).value)
  {
    if k > 1 {
      MergedProvider(trees, k - 1, path);
      MergeLookup(Merged(trees, k - 1), trees[k - 1], path);
    }
  }

  /** Folding the trees in module order, the earliest module that provides a
      path decides its attributes there. */
  lemma {:induction false} FirstProviderWins(trees: seq<Node>, k: nat, path: seq<string>, i: nat)
    requires i < k <= |trees|
    requires Provides(Lookup(trees[i], path))
    requires forall j :: 0 <= j < i ==> !Provides(Lookup(trees[j], path))
    ensures Lookup(Merged(trees, k), path).Some?
    ensures Attrs(Lookup(Merged(trees, k), path).value) == Attrs(Lookup(trees[i], path).value)
  {
    if k > 1 {
      MergeStep(trees, k, path);
      if i < k - 1 {
        FirstProviderWins(trees, k - 1, path, i);
        assert Provides(Lookup(Merged(trees, k - 1), path));
      } else {
        MergedProvider(trees, k - 1, path);
        assert !Provides(Lookup(Merged(trees, k - 1), path));
      }
    }
  }


  // ---------------------------------------------------------------------------
  // collect_module_files in magic.rs

  /** The partitions checked for relocation, with whether `/system/X` must be
      a symlink for `X` to move to the root. */
  const BuiltinChecks: seq<(string, bool)> :=
    [("vendor", true), ("system_ext", true), ("product", true), ("odm", false)]

  /** Whether the partition `p` moves from under `/system` to the root. */
  predicate Relocates(host: FsView, p: string, requireSymlink: bool) {
    host.IsDir(PathJoin("/", p)) && (!requireSymlink || host.IsSymlink(PathJoin("/system", p)))
  }

  /** The first `k` relocation checks applied to (root, system). */
  function Relocate(root: Node, system: Node, host: FsView, k: nat): (Node, Node)
    requires k <= |BuiltinChecks|
  {
    if k == 0 then (root, system)
    else
      var prev := Relocate(root, system, host, k - 1);
      RelocateOne(prev.0, prev.1, host, BuiltinChecks[k - 1])
  }

  /** One relocation check: `p` moves from the system tree to the root when
      the check passes and the system tree has it. */
  function RelocateOne(root: Node, system: Node, host: FsView, check: (string, bool)): (Node, Node) {
    var (p, requireSymlink) := check;
    if Relocates(host, p, requireSymlink) && p in system.children then
      (root.(children := root.children[p := system.children[p]]), system.(children := system.children - {p}))
    else (root, system)
  }

  /** The final tree built from the merged root and system trees, or nothing
      when both are empty. */
  function Assemble(root: Node, system: Node, host: FsView): (r: Option<Node>)
    ensures r.None? <==> root.children == map[] && system.children == map[]
    ensures r.Some? ==> "system" in r.value.children
  {
    if root.children == map[] && system.children == map[] then None
    else
      var (r, s) := Relocate(root, system, host, |BuiltinChecks|);
      Some(r.(children := r.children["system" := s]))
  }

  /** `process_module` applied to every module, in module order. */
  function ModuleTreeList(modules: seq<ModuleDir>, extra: seq<string>, exclusions: map<string, set<string>>,
                          host: FsView, validId: string -> bool): (r: seq<(Node, Node)>)
    ensures |r| == |modules|
    ensures forall i :: 0 <= i < |modules| ==>
      r[i] == ModuleTrees(modules[i], extra, ExclusionOf(exclusions, modules[i].path), host, validId)
  {
    if modules == [] then []
    else [ModuleTrees(modules[0], extra, ExclusionOf(exclusions, modules[0].path), host, validId)]
         + ModuleTreeList(modules[1..], extra, exclusions, host, validId)
  }

  function Roots(ts: seq<(Node, Node)>): (r: seq<Node>)
    ensures |r| == |ts| && forall i :: 0 <= i < |ts| ==> r[i] == ts[i].0
  {
    if ts == [] then [] else [ts[0].0] + Roots(ts[1..])
  }

  function Systems(ts: seq<(Node, Node)>): (r: seq<Node>)
    ensures |r| == |ts| && forall i :: 0 <= i < |ts| ==> r[i] == ts[i].1
  {
    if ts == [] then [] else [ts[0].1] + Systems(ts[1..])
  }

  /** The trees of all modules, merged in module order. */
  function MergedTrees(modules: seq<ModuleDir>, extra: seq<string>, exclusions: map<string, set<string>>,
                       host: FsView, validId: string -> bool): (Node, Node)
  {
    if modules == [] then (NewRoot(""), NewRoot("system"))
    else
      var trees := ModuleTreeList(modules, extra, exclusions, host, validId);
      (Merged(Roots(trees), |trees|), Merged(Systems(trees), |trees|))
  }

  function ExclusionOf(exclusions: map<string, set<string>>, path: string): Option<set<string>> {
    if path in exclusions then Some(exclusions[path]) else None
  }

  /** What the relocation checks do to the pair: each check that holds moves
      the system child, if any, to the root unchanged; nothing else changes. */
  lemma {:induction false} RelocateMoves(root: Node, system: Node, host: FsView, k: nat, j: nat)
    requires k <= |BuiltinChecks| && j < |BuiltinChecks|
    ensures var (r, s) := Relocate(root, system, host, k);
      var (p, requireSymlink) := BuiltinChecks[j];
      && r.name == root.name && Attrs(r) == Attrs(root)
      && s.name == system.name && Attrs(s) == Attrs(system)
      && (j < k && Relocates(host, p, requireSymlink) && p in system.children ==>
            p in r.children && r.children[p] == system.children[p] && p !in s.children)
      && (!(j < k && Relocates(host, p, requireSymlink)) ==>
            (p in s.children <==> p in system.children)
            && (p in system.children ==> s.children[p] == system.children[p]))
  {
    if k > 0 {
      RelocateMoves(root, system, host, k - 1, j);
    }
  }

  /** The relocation leaves every other child of the two trees alone. */
  lemma {:induction false} RelocateFrame(root: Node, system: Node, host: FsView, k: nat, n: string)
    requires k <= |BuiltinChecks|
    requires n !in RootPartitions
    ensures var (r, s) := Relocate(root, system, host, k);
      (n in r.children <==> n in root.children) && (n in root.children ==> r.children[n] == root.children[n])
      && (n in s.children <==> n in system.children) && (n in system.children ==> s.children[n] == system.children[n])
  {
    if k > 0 {
      RelocateFrame(root, system, host, k - 1, n);
    }
  }

  /** In the assembled tree, `vendor`, `system_ext` and `product` leave
      `system` for the root exactly when `/X` is a directory and `/system/X` a
      symlink, and `odm` whenever `/odm` is a directory; a partition that stays
      keeps its node under `system`. */
  lemma AssembleRelocates(root: Node, system: Node, host: FsView, j: nat)
    requires j < |BuiltinChecks|
    requires Assemble(root, system, host).Some?
    ensures var t := Assemble(root, system, host).value;
      var (p, requireSymlink) := BuiltinChecks[j];
      var s := t.children["system"];
      && s.name == system.name && Attrs(s) == Attrs(system)
      && (Relocates(host, p, requireSymlink) && p in system.children ==>
            p in t.children && t.children[p] == system.children[p] && p !in s.children)
      && (!Relocates(host, p, requireSymlink) ==>
            (p in s.children <==> p in system.children)
            && (p in system.children ==> s.children[p] == system.children[p]))
  {
    RelocateMoves(root, system, host, |BuiltinChecks|, j);
  }

  /** The `reduce` in `collect_module_files`: every module processed and
      its trees merged into the ones before it. */
  method ReduceModules(modules: seq<ModuleDir>, extra: seq<string>, exclusions: map<string, set<string>>,
                       host: FsView, validId: string -> bool) returns (root: Node, system: Node)
    ensures (root, system) == MergedTrees(modules, extra, exclusions, host, validId)
  {
    ghost var trees := ModuleTreeList(modules, extra, exclusions, host, validId);
    root := NewRoot("");
    system := NewRoot("system");
    var i := 0;
    while i < |modules|
      invariant 0 <= i <= |modules|
      invariant i == 0 ==> root == NewRoot("") && system == NewRoot("system")
      invariant i > 0 ==> root == Merged(Roots(trees), i) && system == Merged(Systems(trees), i)
    {
      var excl := ExclusionOf(exclusions, modules[i].path);
      var r1, s1 := ProcessModule(modules[i], extra, excl, host, validId);
      if i == 0 {
        root, system := r1, s1;
      } else {
        root := MergeInto(root, r1);
        system := MergeInto(system, s1);
      }
      i := i + 1;
    }
  }

  /** `collect_module_files` in magic.rs: the module trees are reduced in
      module order, nothing is returned when both merged trees are empty, and
      otherwise the relocations are applied and `system` is put under root. */
  method CollectAll(modules: seq<ModuleDir>, extra: seq<string>, exclusions: map<string, set<string>>,
                    host: FsView, validId: string -> bool) returns (r: Option<Node>)
    ensures var (root, system) := MergedTrees(modules, extra, exclusions, host, validId);
      r == Assemble(root, system, host)
  {
    var root, system := ReduceModules(modules, extra, exclusions, host, validId);
    if root.children == map[] && system.children == map[] {
      return None;
    }
    root, system := RelocateAll(root, system, host);
    root := root.(children := root.children["system" := system]);
    r := Some(root);
  }

  /** The relocation loop of `collect_module_files`: each built-in check in
      turn. */
  method RelocateAll(root0: Node, system0: Node, host: FsView) returns (root: Node, system: Node)
    ensures (root, system) == Relocate(root0, system0, host, |BuiltinChecks|)
  {
    root, system := root0, system0;
    var k := 0;
    while k < |BuiltinChecks|
      invariant 0 <= k <= |BuiltinChecks|
      invariant (root, system) == Relocate(root0, system0, host, k)
    {
      ghost var before := (root, system);
      var (p, requireSymlink) := BuiltinChecks[k];
      if host.IsDir(PathJoin("/", p)) && (!requireSymlink || host.IsSymlink(PathJoin("/system", p))) {
        if p in system.children {
          root := root.(children := root.children[p := system.children[p]]);
          system := system.(children := system.children - {p});
        }
      }
      assert (root, system) == RelocateOne(before.0, before.1, host, BuiltinChecks[k]);
      k := k + 1;
    }
  }

  // ---------------------------------------------------------------------------
  // MagicMount: the per-node decisions

  /** What `handle_directory` sees of the live directory it mounts over. */
  datatype RealDir = RealDir(
    present: bool,                       // the directory itself exists
    childPresent: set<string>,           // `path/name` exists
    childKinds: map<string, NodeFileType>,  // `symlink_metadata(path/name)`, when it succeeds
    listing: Option<set<string>>)        // the names `read_dir(path)` yields, when it succeeds

  /** Whether the child `c` named `name` can only be mounted with a tmpfs over
      its parent: a symlink always; a whiteout over something that exists; any
      other node over nothing or over an entry of a different type or a symlink. */
  predicate NeedsTmpfs(c: Node, name: string, live: RealDir) {
    match c.fileType
    case Symlink => true
    case Whiteout => name in live.childPresent
    case _ => name !in live.childKinds || live.childKinds[name] != c.fileType || live.childKinds[name] == Symlink
  }

  /** A child may be marked `skip` only because it needs a tmpfs and no module
      provides it; nothing else about it changes. */
  predicate SkipMarked(before: Node, after: Node, name: string, live: RealDir) {
    after == before || (after == before.(skip := true) && NeedsTmpfs(before, name, live) && before.modulePath.None?)
  }

  /** The first half of `handle_directory`: whether this directory gets its
      own tmpfs, and which children are skipped. Children are visited in the
      map's unspecified order. */
  method DecideTmpfs(node: Node, hasTmpfs: bool, live: RealDir) returns (createTmpfs: bool, children: map<string, Node>)
    ensures !hasTmpfs && node.replace && node.modulePath.Some? ==> createTmpfs
    ensures hasTmpfs ==> !createTmpfs && children == node.children
    ensures createTmpfs ==>
      (!hasTmpfs &&
       ((node.replace && node.modulePath.Some?)
        || exists n :: n in node.children && NeedsTmpfs(node.children[n], n, live) && node.children[n].modulePath.Some?))
    ensures children.Keys == node.children.Keys
    ensures !hasTmpfs && !createTmpfs ==> forall n :: n in node.children && NeedsTmpfs(node.children[n], n, live) ==>
      node.children[n].modulePath.None? && children[n].skip
    ensures forall n :: n in children ==> SkipMarked(node.children[n], children[n], n, live)
  {
    createTmpfs := !hasTmpfs && node.replace && node.modulePath.Some?;
    children := node.children;
    if !hasTmpfs && !createTmpfs {
      var rest := node.children.Keys;
      while rest != {}
        invariant rest <= node.children.Keys
        invariant !createTmpfs
        invariant children.Keys == node.children.Keys
        invariant forall n :: n in rest ==> children[n] == node.children[n]
        invariant forall n :: n in children ==> SkipMarked(node.children[n], children[n], n, live)
        invariant forall n :: n in node.children && n !in rest && NeedsTmpfs(node.children[n], n, live) ==>
          node.children[n].modulePath.None? && children[n].skip
        decreases rest
      {
        var n :| n in rest;
        var c := children[n];
        if NeedsTmpfs(c, n, live) {
          if c.modulePath.None? {
            children := children[n := c.(skip := true)];
          } else {
            createTmpfs := true;
            return;
          }
        }
        rest := rest - {n};
      }
    }
  }

  /** One step of the second half of `handle_directory`. */
  datatype DirStep = MountChild(name: string) | Mirror(name: string)

  /** The second half of `handle_directory`: the live entries are walked
      first (when the directory exists and is not replaced), mounting the
      child of the same name or, under a tmpfs, mirroring the live entry; then
      every child not yet taken is mounted. Skipped children are never
      mounted. An existing directory that cannot be read is an error. Both
      walks go in the unspecified order of the directory and of the map. */
  method MountSteps(children: map<string, Node>, replace: bool, hasTmpfs: bool, live: RealDir)
    returns (r: Result<seq<DirStep>>)
    ensures r.Err? <==> live.present && !replace && live.listing.None?
    ensures r.Ok? ==> forall n :: MountChild(n) in r.value <==> n in children && !children[n].skip
    ensures r.Ok? ==> forall n :: Mirror(n) in r.value <==>
      hasTmpfs && live.present && !replace && n in live.listing.value && n !in children
    ensures r.Ok? ==> forall i, j :: 0 <= i < j < |r.value| ==> r.value[i] != r.value[j]
  {
    var remaining := children;
    var steps: seq<DirStep> := [];
    if live.present && !replace {
      if live.listing.None? {
        return Err("cannot read directory");
      }
      remaining, steps := WalkLive(children, hasTmpfs, live.listing.value);
    }
    steps := MountRemaining(remaining, steps);
    r := Ok(steps);
  }

  /** The first walk of `MountSteps`, over the live directory's entries:
      the child of each name is taken out of `remaining` and mounted unless
      skipped, and under a tmpfs a name no child has is mirrored. */
  method WalkLive(children: map<string, Node>, hasTmpfs: bool, listing: set<string>)
    returns (remaining: map<string, Node>, steps: seq<DirStep>)
    ensures remaining.Keys == children.Keys - listing
    ensures forall n :: n in remaining ==> remaining[n] == children[n]
    ensures forall n :: MountChild(n) in steps <==> n in children && n in listing && !children[n].skip
    ensures forall n :: Mirror(n) in steps <==> hasTmpfs && n in listing && n !in children
    ensures forall i, j :: 0 <= i < j < |steps| ==> steps[i] != steps[j]
  {
    remaining, steps := children, [];
    var rest := listing;
    while rest != {}
      invariant rest <= listing
      invariant remaining.Keys == children.Keys - (listing - rest)
      invariant forall n :: n in remaining ==> remaining[n] == children[n]
      invariant forall n :: MountChild(n) in steps <==> n in children && n in listing - rest && !children[n].skip
      invariant forall n :: Mirror(n) in steps <==> hasTmpfs && n in listing - rest && n !in children
      invariant forall i, j :: 0 <= i < j < |steps| ==> steps[i] != steps[j]
      decreases rest
    {
      var name :| name in rest;
      if name in remaining {
        var c := remaining[name];
        remaining := remaining - {name};
        if !c.skip {
          steps := steps + [MountChild(name)];
        }
      } else if hasTmpfs {
        steps := steps + [Mirror(name)];
      }
      rest := rest - {name};
    }
  }

  /** The second walk of `MountSteps`: every child still in `remaining` is
      mounted unless skipped. */
  method MountRemaining(remaining: map<string, Node>, steps0: seq<DirStep>) returns (steps: seq<DirStep>)
    requires forall n :: n in remaining ==> MountChild(n) !in steps0
    requires forall i, j :: 0 <= i < j < |steps0| ==> steps0[i] != steps0[j]
    ensures forall n :: MountChild(n) in steps <==> MountChild(n) in steps0 || (n in remaining && !remaining[n].skip)
    ensures forall n :: Mirror(n) in steps <==> Mirror(n) in steps0
    ensures forall i, j :: 0 <= i < j < |steps| ==> steps[i] != steps[j]
  {
    steps := steps0;
    var rest := remaining.Keys;
    while rest != {}
      invariant rest <= remaining.Keys
      invariant forall n :: MountChild(n) in steps <==>
        MountChild(n) in steps0 || (n in remaining && !remaining[n].skip && n !in rest)
      invariant forall n :: Mirror(n) in steps <==> Mirror(n) in steps0
      invariant forall i, j :: 0 <= i < j < |steps| ==> steps[i] != steps[j]
      decreases rest
    {
      var n :| n in rest;
      if !remaining[n].skip {
        steps := steps + [MountChild(n)];
      }
      rest := rest - {n};
    }
  }

  /** What `do_magic_mount` does for one node. */
  datatype NodeAction = BindFile(source: string, target: string)
                      | CloneSymlink(source: string, target: string)
                      | Nothing
                      | HandleDir

  /** `do_magic_mount`'s dispatch: a regular file is bind-mounted onto the
      work path under a tmpfs and onto the live path otherwise; a symlink is
      recreated in the work path; a whiteout does nothing; a directory is
      handled level by level. A file or symlink no module provides is an
      error. */
  function DoMagicMount(node: Node, path: string, workPath: string, hasTmpfs: bool): (r: Result<NodeAction>)
    ensures r.Err? <==> (node.fileType == RegularFile || node.fileType == Symlink) && node.modulePath.None?
    ensures node.fileType == Whiteout ==> r == Ok(Nothing)
    ensures node.fileType == Directory ==> r == Ok(HandleDir)
    ensures r.Ok? && r.value.BindFile? ==>
      node.fileType == RegularFile && Some(r.value.source) == node.modulePath
      && r.value.target == (if hasTmpfs then workPath else path)
    ensures r.Ok? && r.value.CloneSymlink? ==>
      node.fileType == Symlink && Some(r.value.source) == node.modulePath && r.value.target == workPath
  {
    match node.fileType
    case RegularFile =>
      if node.modulePath.None? then Err("cannot mount root file")
      else Ok(BindFile(node.modulePath.value, if hasTmpfs then workPath else path))
    case Symlink =>
      if node.modulePath.None? then Err("cannot mount root symlink")
      else Ok(CloneSymlink(node.modulePath.value, workPath))
    case Whiteout => Ok(Nothing)
    case Directory => Ok(HandleDir)
  }

  /** The paths a regular-file mount reports for unmounting, as the source is
      written: the report sits in the error-context closure of the bind, which
      runs only when the bind fails. */
  function FileUnmountReportsAsWritten(umount: bool, bindOk: bool, target: string): (r: seq<string>)
    ensures r != [] <==> umount && !bindOk
  {
    if umount && !bindOk then [target] else []
  }

  /** A successful file bind is never reported as written, and a failed one,
      which mounted nothing, is. */
  lemma AsWrittenReportsTheWrongMount(target: string)
    ensures FileUnmountReportsAsWritten(true, true, target) == []
    ensures FileUnmountReportsAsWritten(true, false, target) == [target]
  {
  }

  /** What a mount reports for unmounting, as `handle_directory` does for the
      tmpfs it moves over a directory: the mount point, once it has been
      mounted, when unmounting is enabled. A regular-file bind evidently means
      to follow the same rule. */
  function UnmountReports(umount: bool, mounted: bool, path: string): (r: seq<string>)
    ensures path in r <==> umount && mounted
    ensures |r| <= 1
  {
    if umount && mounted then [path] else []
  }

  /** With unmounting enabled, the file bind as written reports the opposite
      of the rule, whatever the bind does. */
  lemma AsWrittenAlwaysDiffers(bindOk: bool, target: string)
    ensures FileUnmountReportsAsWritten(true, bindOk, target) != UnmountReports(true, bindOk, target)
  {
  }
  /** The mount points one node's dispatch reports for unmounting, under the
      corrected rule: a file bound onto its target is reported when the bind
      succeeds with unmounting enabled, and no other dispatch reports. */
  function DispatchReports(node: Node, path: string, workPath: string, hasTmpfs: bool,
                           umount: bool, bindOk: bool): (r: seq<string>)
    ensures |r| <= 1
    ensures r != [] <==> node.fileType == RegularFile && node.modulePath.Some? && umount && bindOk
    ensures r != [] ==> r == [if hasTmpfs then workPath else path]
  {
    match DoMagicMount(node, path, workPath, hasTmpfs)
    case Ok(BindFile(_, target)) => UnmountReports(umount, bindOk, target)
    case _ => []
  }

}
