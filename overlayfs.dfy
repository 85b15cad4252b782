/** The overlayfs backend's mounter: the layer list and option strings of one
    overlay mount, the layers of a nested mount, and the sequence that mounts
    a partition root and then restores the mounts nested under it. */
module OverlayFs {
  import opened Wrappers
  import opened Strs
  import opened FsView
  import opened MountKernel

  const MaxLowerdirCount: nat := 128
  const MaxArgLength: nat := 3000

  function Min(a: nat, b: nat): nat { if a <= b then a else b }

  // ---------------------------------------------------------------------------
  // The layer list as written: the stock root is the first layer cut

  /** The `while` loop of `mount_overlayfs`: the last layer is dropped while
      the joined list is too long and more than one layer is left. */
  function PopUntilFits(layers: seq<string>): seq<string>
    decreases |layers|
  {
    if |Join(layers, ':')| > MaxArgLength && |layers| > 1 then PopUntilFits(layers[..|layers| - 1]) else layers
  }

  /** The source's layer list: the module layers, then the stock root, cut
      to 128 entries and then popped from the end until it fits. */
  function LayersAsWritten(lowerDirs: seq<string>, lowest: string): seq<string> {
    var all := lowerDirs + [lowest];
    PopUntilFits(all[..Min(|all|, MaxLowerdirCount)])
  }

  lemma {:induction false} PopUntilFitsPrefix(layers: seq<string>)
    requires layers != []
    ensures var r := PopUntilFits(layers);
      1 <= |r| <= |layers| && r == layers[..|r|]
      && (|Join(r, ':')| <= MaxArgLength || |r| == 1)
    decreases |layers|
  {
    if |Join(layers, ':')| > MaxArgLength && |layers| > 1 {
      PopUntilFitsPrefix(layers[..|layers| - 1]);
    }
  }

  /** Both cuts take layers off the end, where the stock root sits: with 128
      or more module layers the stock root is not a layer at all, so the
      partition's own files vanish under the overlay. */
  lemma AsWrittenDropsStockRoot(lowerDirs: seq<string>, lowest: string)
    requires |lowerDirs| >= MaxLowerdirCount && lowest !in lowerDirs
    ensures lowest !in LayersAsWritten(lowerDirs, lowest)
  {
    var all := lowerDirs + [lowest];
    var capped := all[..MaxLowerdirCount];
    assert capped == lowerDirs[..MaxLowerdirCount];
    PopUntilFitsPrefix(capped);
    var r := PopUntilFits(capped);
    assert forall x :: x in r ==> x in capped;
  }

  // ---------------------------------------------------------------------------
  // The layer list with the stock root kept

  /** The module layers that are kept: dropped from the end while the list
      with the stock root appended is too long. */
  function KeptModules(mods: seq<string>, lowest: string): seq<string>
    decreases |mods|
  {
    if |Join(mods + [lowest], ':')| > MaxArgLength && mods != [] then KeptModules(mods[..|mods| - 1], lowest) else mods
  }

  /** At most 127 module layers, as many as fit, always above the stock root. */
  function Layers(lowerDirs: seq<string>, lowest: string): seq<string> {
    KeptModules(lowerDirs[..Min(|lowerDirs|, MaxLowerdirCount - 1)], lowest) + [lowest]
  }

  lemma {:induction false} KeptModulesPrefix(mods: seq<string>, lowest: string)
    ensures var r := KeptModules(mods, lowest);
      |r| <= |mods| && r == mods[..|r|]
      && (|Join(r + [lowest], ':')| <= MaxArgLength || r == [])
      && forall k :: |r| < k <= |mods| ==> |Join(mods[..k] + [lowest], ':')| > MaxArgLength
    decreases |mods|
  {
    if |Join(mods + [lowest], ':')| > MaxArgLength && mods != [] {
      var init := mods[..|mods| - 1];
      KeptModulesPrefix(init, lowest);
      assert forall k :: 0 <= k <= |init| ==> init[..k] == mods[..k];
      assert mods[..|mods|] == mods;
    }
  }

  /** The stock root is always the bottom layer; above it sit the first module
      layers in order, at most 128 layers in all, and the joined list fits in
      3000 characters unless no module layer is left; no longer prefix of the
      module layers would fit. */
  lemma LayersKeepStockRoot(lowerDirs: seq<string>, lowest: string)
    ensures var r := Layers(lowerDirs, lowest);
      && 1 <= |r| <= MaxLowerdirCount
      && r[|r| - 1] == lowest
      && |r| - 1 <= |lowerDirs| && r[..|r| - 1] == lowerDirs[..|r| - 1]
      && (|Join(r, ':')| <= MaxArgLength || |r| == 1)
      && forall k :: |r| - 1 < k <= Min(|lowerDirs|, MaxLowerdirCount - 1) ==>
           |Join(lowerDirs[..k] + [lowest], ':')| > MaxArgLength
  {
    var capped := lowerDirs[..Min(|lowerDirs|, MaxLowerdirCount - 1)];
    KeptModulesPrefix(capped, lowest);
    var kept := KeptModules(capped, lowest);
    assert Layers(lowerDirs, lowest)[..|kept|] == kept;
    assert forall k :: 0 <= k <= |capped| ==> capped[..k] == lowerDirs[..k];
  }

  /** The truncation of `mount_overlayfs`, keeping the stock root. */
  method CapLayers(lowerDirs: seq<string>, lowest: string) returns (layers: seq<string>, lowerdir: string)
    ensures layers == Layers(lowerDirs, lowest)
    ensures lowerdir == Join(layers, ':')
  {
    var mods := lowerDirs;
    if |mods| > MaxLowerdirCount - 1 {
      mods := mods[..MaxLowerdirCount - 1];
    }
    ghost var capped := mods;
    assert capped == lowerDirs[..Min(|lowerDirs|, MaxLowerdirCount - 1)];
    layers := mods + [lowest];
    assert layers[..|layers| - 1] == capped;
    lowerdir := Join(layers, ':');
    if |lowerdir| > MaxArgLength {
      while |lowerdir| > MaxArgLength && |layers| > 1
        invariant 1 <= |layers| && layers[|layers| - 1] == lowest
        invariant KeptModules(layers[..|layers| - 1], lowest) == KeptModules(capped, lowest)
        invariant lowerdir == Join(layers, ':')
        decreases |layers|
      {
        assert layers == layers[..|layers| - 1] + [lowest];
        assert layers[..|layers| - 1][..|layers| - 2] == layers[..|layers| - 2];
        layers := layers[..|layers| - 2] + [lowest];
        lowerdir := Join(layers, ':');
      }
    }
    assert layers == layers[..|layers| - 1] + [lowest];
    assert KeptModules(layers[..|layers| - 1], lowest) == layers[..|layers| - 1];
  }

  // ---------------------------------------------------------------------------
  // Option strings

  /** A `,` in a path becomes `\,` in the legacy option string. */
  function Escape(s: string): string {
    ReplaceChar(s, ',', "\\,")
  }

  /** How the option parser reads an escaped value back. */
  function Unescape(s: string): string
    decreases |s|
  {
    if |s| >= 2 && s[0] == '\\' && s[1] == ',' then "," + Unescape(s[2..])
    else if s == [] then []
    else [s[0]] + Unescape(s[1..])
  }

  /** An escaped value never starts with a bare comma. */
  lemma EscapeHead(s: string)
    ensures Escape(s) != [] ==> Escape(s)[0] != ','
    ensures s != [] ==> Escape(s) == (if s[0] == ',' then "\\," else [s[0]]) + Escape(s[1..])
  {
  }

  /** Reading an escaped value back gives the path. */
  lemma {:induction false} EscapeRoundTrip(s: string)
    ensures Unescape(Escape(s)) == s
    decreases |s|
  {
    if s != [] {
      EscapeHead(s);
      EscapeHead(s[1..]);
      EscapeRoundTrip(s[1..]);
      var e := Escape(s[1..]);
      if s[0] == ',' {
        assert Escape(s) == "\\," + e;
        assert ("\\," + e)[2..] == e;
      } else {
        assert Escape(s) == [s[0]] + e;
        assert ([s[0]] + e)[1..] == e;
      }
      assert s == [s[0]] + s[1..];
    }
  }

  /** Escaping neither adds nor removes any character other than `,` and `\`. */
  lemma {:induction false} EscapeKeeps(s: string, c: char)
    requires c != ',' && c != '\\'
    ensures c in Escape(s) <==> c in s
    decreases |s|
  {
    if s != [] {
      EscapeHead(s);
      EscapeKeeps(s[1..], c);
      assert s == [s[0]] + s[1..];
    }
  }

  /** The legacy mount's option string. */
  function FallbackData(lowerdir: string, upper: Option<string>, work: Option<string>): string {
    "lowerdir=" + Escape(lowerdir)
    + (if upper.Some? && work.Some? then ",upperdir=" + Escape(upper.value) + ",workdir=" + Escape(work.value) else "")
  }

  /** The option string holds a NUL, which `CString::new` refuses, exactly
      when one of the paths it names does. */
  lemma FallbackDataNul(lowerdir: string, upper: Option<string>, work: Option<string>)
    ensures '\0' in FallbackData(lowerdir, upper, work) <==>
      '\0' in lowerdir || (upper.Some? && work.Some? && ('\0' in upper.value || '\0' in work.value))
  {
    EscapeKeeps(lowerdir, '\0');
    if upper.Some? && work.Some? {
      EscapeKeeps(upper.value, '\0');
      EscapeKeeps(work.value, '\0');
    }
  }

  /** The upper and work directories are used only when both are given and
      both exist. */
  function RwPair(fs: FsView, upperdir: Option<string>, workdir: Option<string>): (r: (Option<string>, Option<string>))
    ensures r.0.Some? <==> r.1.Some?
    ensures r.0.Some? <==> upperdir.Some? && fs.Exists(upperdir.value) && workdir.Some? && fs.Exists(workdir.value)
    ensures r.0.Some? ==> r.0 == upperdir && r.1 == workdir
  {
    var up := if upperdir.Some? && fs.Exists(upperdir.value) then upperdir else None;
    var wd := if workdir.Some? && fs.Exists(workdir.value) then workdir else None;
    if up.Some? && wd.Some? then (up, wd) else (None, None)
  }

  /** An overlay mount succeeds through the new mount API, or else through
      mount(2) with the escaped option string, which must hold no NUL. */
  function OverlayOutcome(k: Kernel, lowerdir: string, upper: Option<string>, work: Option<string>, dest: string): (r: Outcome)
    ensures r.Pass? <==> k.fsopenMount(dest) || ('\0' !in FallbackData(lowerdir, upper, work) && k.legacyMount(dest))
  {
    if k.fsopenMount(dest) then Pass
    else if '\0' in FallbackData(lowerdir, upper, work) then Fail("nul byte in mount data")
    else if k.legacyMount(dest) then Pass
    else Fail("mount failed")
  }

  /** What one overlay mount asks the kernel for. */
  datatype OverlayRequest = OverlayRequest(
    layers: seq<string>,
    lowerdir: string,
    upper: Option<string>,
    work: Option<string>,
    source: string,
    fallbackData: Option<string>)

  /** `mount_overlayfs`. */
  method MountOverlayFs(k: Kernel, fs: FsView, lowerDirs: seq<string>, lowest: string,
                        upperdir: Option<string>, workdir: Option<string>, dest: string, source: string)
    returns (r: Outcome, req: OverlayRequest)
    ensures req.layers == Layers(lowerDirs, lowest) && req.lowerdir == Join(req.layers, ':')
    ensures (req.upper, req.work) == RwPair(fs, upperdir, workdir)
    ensures req.source == source
    ensures req.fallbackData.Some? <==> !k.fsopenMount(dest)
    ensures req.fallbackData.Some? ==> req.fallbackData.value == FallbackData(req.lowerdir, req.upper, req.work)
    ensures r == OverlayOutcome(k, req.lowerdir, req.upper, req.work, dest)
  {
    var layers, lowerdir := CapLayers(lowerDirs, lowest);
    var upper := if upperdir.Some? && fs.Exists(upperdir.value) then upperdir else None;
    var work := if workdir.Some? && fs.Exists(workdir.value) then workdir else None;
    if !(upper.Some? && work.Some?) {
      upper, work := None, None;
    }
    req := OverlayRequest(layers, lowerdir, upper, work, source, None);
    if k.fsopenMount(dest) {
      r := Pass;
      return;
    }
    var data := FallbackData(lowerdir, upper, work);
    req := req.(fallbackData := Some(data));
    if '\0' in data {
      r := Fail("nul byte in mount data");
    } else if k.legacyMount(dest) {
      r := Pass;
    } else {
      r := Fail("mount failed");
    }
  }

  /** `bind_mount`: a recursive clone moved into place, or, only when the
      clone cannot be opened, a recursive bind mount. */
  function BindMount(k: Kernel, from: string, to: string): (r: Outcome)
    ensures r.Pass? <==> if k.openTree(from) then k.moveMount(to) else k.bindMount(to)
  {
    if k.openTree(from) then (if k.moveMount(to) then Pass else Fail("move_mount failed"))
    else if k.bindMount(to) then Pass else Fail("bind mount failed")
  }

  // ---------------------------------------------------------------------------
  // Nested mounts

  /** How a nested mount point is restored. */
  datatype ChildAction = BindStock | SkipChild | OverlayChild(lowers: seq<string>)

  /** The module directories for `relative` that are directories, in module order. */
  function ChildLowers(fs: FsView, roots: seq<string>, relative: string): seq<string> {
    if roots == [] then []
    else
      var last := roots[|roots| - 1] + relative;
      ChildLowers(fs, roots[..|roots| - 1], relative) + (if fs.IsDir(last) then [last] else [])
  }

  lemma {:induction false} ChildLowersMeans(fs: FsView, roots: seq<string>, relative: string)
    ensures forall x :: x in ChildLowers(fs, roots, relative) <==>
      exists r :: r in roots && x == r + relative && fs.IsDir(x)
  {
    if roots != [] {
      var init := roots[..|roots| - 1];
      ChildLowersMeans(fs, init, relative);
      assert roots == init + [roots[|roots| - 1]];
    }
  }

  /** What `mount_overlay_child` decides for a nested mount point: the stock
      directory is bound when no module has the path; the module directories
      are stacked when the stock path is a directory, every module entry there
      is a directory and there is at least one; otherwise nothing is done. */
  function ChildPlan(fs: FsView, relative: string, roots: seq<string>, stockRoot: string): ChildAction {
    if forall r :: r in roots ==> !fs.Exists(r + relative) then BindStock
    else if fs.IsDir(stockRoot) && (forall r :: r in roots && fs.Exists(r + relative) ==> fs.IsDir(r + relative))
            && ChildLowers(fs, roots, relative) != []
    then OverlayChild(ChildLowers(fs, roots, relative))
    else SkipChild
  }

  /** The outcome of `mount_overlay_child`: a bound stock directory succeeds
      when the bind does, an abandoned point always succeeds, and a stacked
      one succeeds when the overlay mounts or, failing that, the stock bind
      does. */
  function ChildOutcome(k: Kernel, fs: FsView, mountPoint: string, relative: string, roots: seq<string>,
                        stockRoot: string): Outcome {
    match ChildPlan(fs, relative, roots, stockRoot)
    case BindStock => BindMount(k, stockRoot, mountPoint)
    case SkipChild => Pass
    case OverlayChild(lowers) =>
      if OverlayOutcome(k, Join(Layers(lowers, stockRoot), ':'), None, None, mountPoint).Pass? then Pass
      else BindMount(k, stockRoot, mountPoint)
  }

  /** The decision of `mount_overlay_child`. When no module has the path the
      stock directory is bind-mounted; a module entry there that is not a
      directory, a stock path that is not a directory, or no module directory
      at all abandons the mount point silently; otherwise the module
      directories are stacked over the stock one in module order. */
  method PlanChild(fs: FsView, relative: string, roots: seq<string>, stockRoot: string) returns (act: ChildAction)
    ensures act == BindStock <==> forall r :: r in roots ==> !fs.Exists(r + relative)
    ensures act.OverlayChild? <==>
      && (exists r :: r in roots && fs.Exists(r + relative))
      && fs.IsDir(stockRoot)
      && (forall r :: r in roots && fs.Exists(r + relative) ==> fs.IsDir(r + relative))
      && ChildLowers(fs, roots, relative) != []
    ensures act.OverlayChild? ==> act.lowers == ChildLowers(fs, roots, relative)
    ensures act == ChildPlan(fs, relative, roots, stockRoot)
  {
    var i := 0;
    while i < |roots|
      invariant 0 <= i <= |roots|
      invariant forall j :: 0 <= j < i ==> !fs.Exists(roots[j] + relative)
    {
      if fs.Exists(roots[i] + relative) {
        break;
      }
      i := i + 1;
    }
    if i == |roots| {
      return BindStock;
    }
    assert roots[i] in roots && fs.Exists(roots[i] + relative);
    if !fs.IsDir(stockRoot) {
      return SkipChild;
    }
    var lowers: seq<string> := [];
    var j := 0;
    while j < |roots|
      invariant 0 <= j <= |roots|
      invariant lowers == ChildLowers(fs, roots[..j], relative)
      invariant forall r :: r in roots[..j] && fs.Exists(r + relative) ==> fs.IsDir(r + relative)
    {
      var lowerDir := roots[j] + relative;
      assert roots[..j + 1][..j] == roots[..j];
      assert forall r :: r in roots[..j + 1] <==> r in roots[..j] || r == roots[j] by {
        assert roots[..j + 1] == roots[..j] + [roots[j]];
      }
      if fs.IsDir(lowerDir) {
        lowers := lowers + [lowerDir];
      } else if fs.Exists(lowerDir) {
        return SkipChild;
      }
      j := j + 1;
    }
    assert roots[..j] == roots;
    if lowers == [] {
      return SkipChild;
    }
    return OverlayChild(lowers);
  }

  /** `mount_overlay_child`: the decision, then the mount. A failed overlay
      falls back to a bind mount of the stock directory; a mount point that
      gets either is registered for unmounting. */
  method MountOverlayChild(k: Kernel, fs: FsView, mountPoint: string, relative: string, roots: seq<string>,
                           stockRoot: string, source: string)
    returns (r: Outcome, act: ChildAction, registered: bool)
    ensures act.SkipChild? ==> r.Pass? && !registered
    ensures act.BindStock? ==> r == BindMount(k, stockRoot, mountPoint) && !registered
    ensures act.OverlayChild? ==>
      && (registered <==> r.Pass?)
      && (r.Pass? <==> OverlayOutcome(k, Join(Layers(act.lowers, stockRoot), ':'), None, None, mountPoint).Pass?
                       || BindMount(k, stockRoot, mountPoint).Pass?)
    ensures act == BindStock <==> forall x :: x in roots ==> !fs.Exists(x + relative)
    ensures act.OverlayChild? ==> act.lowers == ChildLowers(fs, roots, relative) && act.lowers != []
    ensures act == ChildPlan(fs, relative, roots, stockRoot)
    ensures r == ChildOutcome(k, fs, mountPoint, relative, roots, stockRoot)
  {
    act := PlanChild(fs, relative, roots, stockRoot);
    registered := false;
    match act
    case BindStock =>
      r := BindMount(k, stockRoot, mountPoint);
    case SkipChild =>
      r := Pass;
    case OverlayChild(lowers) =>
      var o, req := MountOverlayFs(k, fs, lowers, stockRoot, None, None, mountPoint, source);
      if o.Fail? {
        var b := BindMount(k, stockRoot, mountPoint);
        if b.Fail? {
          r := b;
          return;
        }
      }
      registered := true;
      r := Pass;
  }

  /** A mount point strictly below `root`, component-wise. */
  predicate IsChildMount(mountPoint: string, root: string) {
    PathStartsWith(mountPoint, root) && !PathStartsWith(root, mountPoint)
  }

  /** The mount points below `root`, sorted and without duplicates. */
  method ChildMountSeq(points: seq<string>, root: string) returns (r: seq<string>)
    ensures StrictlySorted(r)
    ensures forall mp :: mp in r <==> mp in points && IsChildMount(mp, root)
  {
    var below := Filter(points, mp => IsChildMount(mp, root));
    r := SortDedup(below);
    forall mp ensures mp in r <==> mp in points && IsChildMount(mp, root) {
      assert mp in r <==> mp in Elems(r);
      assert mp in below <==> mp in Elems(below);
    }
  }

  /** The stock directory of a nested mount point, relative to the root the
      process has changed into. */
  function ChildStock(mountPoint: string, root: string): string {
    "." + ReplaceFirst(mountPoint, root, "")
  }

  /** The nested mount points that are restored: below the root, with a stock
      directory that exists. */
  predicate Restored(fs: FsView, points: seq<string>, root: string, mp: string) {
    mp in points && IsChildMount(mp, root) && fs.Exists(ChildStock(mp, root))
  }

  /** `mount_overlay`. `chdirOk` says whether the process can change into
      `root`; `mountInfo` is the mount table, `None` when it cannot be read. */
  method MountOverlay(k: Kernel, fs: FsView, root: string, roots: seq<string>, workdir: Option<string>,
                      upperdir: Option<string>, source: string, chdirOk: bool, mountInfo: Option<seq<string>>)
    returns (r: Outcome, rootMounted: bool, attempted: seq<string>, reverted: bool)
    ensures rootMounted <==> (chdirOk && mountInfo.Some?
      && OverlayOutcome(k, Join(Layers(roots, root), ':'), RwPair(fs, upperdir, workdir).0,
                        RwPair(fs, upperdir, workdir).1, root).Pass?)
    ensures !rootMounted ==> r.Fail? && attempted == [] && !reverted
    ensures StrictlySorted(attempted)
    ensures mountInfo.Some? ==> forall mp :: mp in attempted ==> Restored(fs, mountInfo.value, root, mp)
    ensures r.Pass? <==> rootMounted && !reverted
    ensures r.Pass? ==> forall mp :: mp in attempted <==> Restored(fs, mountInfo.value, root, mp)
    ensures reverted ==> attempted != [] && rootMounted
    ensures rootMounted ==> StopsAtFirstFailure(Outcomes(k, fs, roots, root, attempted), reverted)
    ensures reverted ==> forall mp :: Restored(fs, mountInfo.value, root, mp) && Less(mp, attempted[|attempted| - 1])
                                      ==> mp in attempted
  {
    attempted, reverted, rootMounted := [], false, false;
    if !chdirOk {
      return Fail("failed to chdir"), rootMounted, attempted, reverted;
    }
    if mountInfo.None? {
      return Fail("get mountinfo"), rootMounted, attempted, reverted;
    }
    var mountSeq := ChildMountSeq(mountInfo.value, root);
    r, rootMounted, attempted, reverted := MountRootThenChildren(k, fs, root, roots, workdir, upperdir, source,
                                                                 mountInfo.value, mountSeq);
  }

  /** `mount_overlay` once the mount table is read: the root overlay, then
      the nested mount points. */
  method MountRootThenChildren(k: Kernel, fs: FsView, root: string, roots: seq<string>, workdir: Option<string>,
                               upperdir: Option<string>, source: string, points: seq<string>, mountSeq: seq<string>)
    returns (r: Outcome, rootMounted: bool, attempted: seq<string>, reverted: bool)
    requires StrictlySorted(mountSeq)
    requires forall mp :: mp in mountSeq <==> mp in points && IsChildMount(mp, root)
    ensures rootMounted <==> OverlayOutcome(k, Join(Layers(roots, root), ':'), RwPair(fs, upperdir, workdir).0,
                                            RwPair(fs, upperdir, workdir).1, root).Pass?
    ensures !rootMounted ==> r.Fail? && attempted == [] && !reverted
    ensures StrictlySorted(attempted)
    ensures forall mp :: mp in attempted ==> Restored(fs, points, root, mp)
    ensures r.Pass? <==> rootMounted && !reverted
    ensures r.Pass? ==> forall mp :: mp in attempted <==> Restored(fs, points, root, mp)
    ensures reverted ==> attempted != [] && rootMounted
    ensures rootMounted ==> StopsAtFirstFailure(Outcomes(k, fs, roots, root, attempted), reverted)
    ensures reverted ==> forall mp :: Restored(fs, points, root, mp) && Less(mp, attempted[|attempted| - 1])
                                      ==> mp in attempted
  {
    var o, req := MountOverlayFs(k, fs, roots, root, upperdir, workdir, root, source);
    rootMounted := o.Pass?;
    if !rootMounted {
      r, attempted, reverted := Fail("mount overlayfs for root failed"), [], false;
    } else {
      attempted, reverted := MountRestored(k, fs, root, roots, source, points, mountSeq);
      r := if reverted then Fail("failed to mount overlay for child") else Pass;
    }
  }

  /** The nested mounts of `mount_overlay`, stated over the mount table. */
  method MountRestored(k: Kernel, fs: FsView, root: string, roots: seq<string>, source: string,
                       points: seq<string>, mountSeq: seq<string>)
    returns (attempted: seq<string>, failed: bool)
    requires StrictlySorted(mountSeq)
    requires forall mp :: mp in mountSeq <==> mp in points && IsChildMount(mp, root)
    ensures StrictlySorted(attempted)
    ensures forall mp :: mp in attempted ==> Restored(fs, points, root, mp)
    ensures !failed ==> forall mp :: mp in attempted <==> Restored(fs, points, root, mp)
    ensures StopsAtFirstFailure(Outcomes(k, fs, roots, root, attempted), failed)
    ensures failed ==> attempted != []
    ensures failed ==> forall mp :: Restored(fs, points, root, mp) && Less(mp, attempted[|attempted| - 1])
                                   ==> mp in attempted
  {
    attempted, failed := MountChildren(k, fs, root, roots, source, mountSeq);
    if failed {
      AttemptedPrefix(fs, root, points, mountSeq, attempted);
    }
  }

  /** The outcome of mounting the nested point `mp` below `root`. */
  function ChildOutcomeAt(k: Kernel, fs: FsView, roots: seq<string>, root: string, mp: string): Outcome {
    ChildOutcome(k, fs, mp, ReplaceFirst(mp, root, ""), roots, ChildStock(mp, root))
  }

  /** The nested mount points of `s` that have a stock directory, in order. */
  function Candidates(fs: FsView, root: string, s: seq<string>): seq<string> {
    if s == [] then []
    else
      var init := Candidates(fs, root, s[..|s| - 1]);
      if fs.Exists(ChildStock(s[|s| - 1], root)) then init + [s[|s| - 1]] else init
  }

  lemma {:induction false} CandidatesMeans(fs: FsView, root: string, s: seq<string>, mp: string)
    ensures mp in Candidates(fs, root, s) <==> mp in s && fs.Exists(ChildStock(mp, root))
  {
    if s != [] {
      CandidatesMeans(fs, root, s[..|s| - 1], mp);
      assert s == s[..|s| - 1] + [s[|s| - 1]];
    }
  }

  lemma {:induction false} CandidatesSorted(fs: FsView, root: string, s: seq<string>)
    requires StrictlySorted(s)
    ensures StrictlySorted(Candidates(fs, root, s))
  {
    if s != [] {
      var init := s[..|s| - 1];
      CandidatesSorted(fs, root, init);
      var c := Candidates(fs, root, init);
      forall a | 0 <= a < |c| ensures Less(c[a], s[|s| - 1]) {
        CandidatesMeans(fs, root, init, c[a]);
        var j :| 0 <= j < |init| && init[j] == c[a];
      }
    }
  }

  /** Candidates of a prefix are a prefix of the candidates. */
  lemma {:induction false} CandidatesPrefix(fs: FsView, root: string, s: seq<string>, n: nat)
    requires n <= |s|
    ensures Candidates(fs, root, s[..n]) <= Candidates(fs, root, s)
    decreases |s|
  {
    if n < |s| {
      var init := s[..|s| - 1];
      CandidatesPrefix(fs, root, init, n);
      assert init[..n] == s[..n];
    } else {
      assert s[..n] == s;
    }
  }

  /** In a strictly sorted sequence, a prefix ending in `last` holds every
      element that is less than `last`. */
  lemma SortedPrefixBelow(c: seq<string>, a: seq<string>, mp: string)
    requires StrictlySorted(c) && a <= c && a != []
    requires mp in c && Less(mp, a[|a| - 1])
    ensures mp in a
  {
    var x :| 0 <= x < |c| && c[x] == mp;
    if x >= |a| {
      assert Less(c[|a| - 1], c[x]);
      BelowAntisymmetric(mp, a[|a| - 1]);
    }
  }

  /** The loop of `mount_overlay` over the nested mount points, in sorted
      order: each one with a stock directory is attempted, and the first
      child that fails to mount stops the loop. */
  method MountChildren(k: Kernel, fs: FsView, root: string, roots: seq<string>, source: string,
                       mountSeq: seq<string>)
    returns (attempted: seq<string>, failed: bool)
    requires StrictlySorted(mountSeq)
    ensures attempted <= Candidates(fs, root, mountSeq)
    ensures !failed ==> attempted == Candidates(fs, root, mountSeq)
    ensures StopsAtFirstFailure(Outcomes(k, fs, roots, root, attempted), failed)
    ensures StrictlySorted(attempted)
    ensures forall mp :: mp in attempted ==> mp in mountSeq && fs.Exists(ChildStock(mp, root))
    ensures !failed ==> forall mp :: mp in attempted <==> mp in mountSeq && fs.Exists(ChildStock(mp, root))
  {
    attempted, failed := [], false;
    var i := 0;
    while i < |mountSeq| && !failed
      invariant 0 <= i <= |mountSeq|
      invariant attempted == Candidates(fs, root, mountSeq[..i])
      invariant StopsAtFirstFailure(Outcomes(k, fs, roots, root, attempted), failed)
    {
      attempted, failed := MountChildrenStep(k, fs, root, roots, source, mountSeq, i, attempted);
      i := i + 1;
    }
    MountChildrenExit(fs, root, mountSeq, i, attempted, failed);
  }

  /** One turn of the loop of `MountChildren`, at `mountSeq[i]`. */
  method MountChildrenStep(k: Kernel, fs: FsView, root: string, roots: seq<string>, source: string,
                           mountSeq: seq<string>, i: nat, attempted: seq<string>)
    returns (attempted': seq<string>, failed: bool)
    requires i < |mountSeq|
    requires attempted == Candidates(fs, root, mountSeq[..i])
    requires StopsAtFirstFailure(Outcomes(k, fs, roots, root, attempted), false)
    ensures attempted' == Candidates(fs, root, mountSeq[..i + 1])
    ensures StopsAtFirstFailure(Outcomes(k, fs, roots, root, attempted'), failed)
  {
    CandidatesStep(fs, root, mountSeq, i);
    var tried, c := MountCandidate(k, fs, root, roots, source, mountSeq[i]);
    attempted', failed := attempted, false;
    if tried {
      StopsAtFirstFailureStep(k, fs, roots, root, attempted, mountSeq[i], c);
      attempted', failed := attempted + [mountSeq[i]], c.Fail?;
    }
  }

  /** The outcomes of mounting each of `attempted`, in order. */
  function Outcomes(k: Kernel, fs: FsView, roots: seq<string>, root: string, attempted: seq<string>): (outs: seq<Outcome>)
    ensures |outs| == |attempted|
  {
    if attempted == [] then []
    else Outcomes(k, fs, roots, root, attempted[..|attempted| - 1])
         + [ChildOutcomeAt(k, fs, roots, root, attempted[|attempted| - 1])]
  }

  lemma {:induction false} OutcomesAt(k: Kernel, fs: FsView, roots: seq<string>, root: string, attempted: seq<string>, j: int)
    requires 0 <= j < |attempted|
    ensures Outcomes(k, fs, roots, root, attempted)[j] == ChildOutcomeAt(k, fs, roots, root, attempted[j])
  {
    if j < |attempted| - 1 {
      OutcomesAt(k, fs, roots, root, attempted[..|attempted| - 1], j);
    }
  }

  /** Every outcome but the last is a success, and `failed` says whether the
      last one failed. */
  predicate StopsAtFirstFailure(outs: seq<Outcome>, failed: bool) {
    (failed <==> outs != [] && outs[|outs| - 1].Fail?)
    && forall j :: 0 <= j < |outs| - 1 ==> outs[j].Pass?
  }

  lemma StopsAtFirstFailureStep(k: Kernel, fs: FsView, roots: seq<string>, root: string,
                                attempted: seq<string>, mp: string, c: Outcome)
    requires StopsAtFirstFailure(Outcomes(k, fs, roots, root, attempted), false)
    requires c == ChildOutcomeAt(k, fs, roots, root, mp)
    ensures StopsAtFirstFailure(Outcomes(k, fs, roots, root, attempted + [mp]), c.Fail?)
  {
    assert (attempted + [mp])[..|attempted|] == attempted;
  }

  /** The loop fails exactly when one of the attempted children fails. */
  lemma StopsAtFirstFailureMeans(k: Kernel, fs: FsView, roots: seq<string>, root: string,
                                 attempted: seq<string>, failed: bool)
    requires StopsAtFirstFailure(Outcomes(k, fs, roots, root, attempted), failed)
    ensures failed <==> exists j :: 0 <= j < |attempted| && ChildOutcomeAt(k, fs, roots, root, attempted[j]).Fail?
    ensures forall j :: 0 <= j < |attempted| - 1 ==> ChildOutcomeAt(k, fs, roots, root, attempted[j]).Pass?
  {
    forall j | 0 <= j < |attempted| {
      OutcomesAt(k, fs, roots, root, attempted, j);
    }
  }

  /** When the loop stops at a failing child, every restored point ordered
      before that child was attempted. */
  lemma AttemptedPrefix(fs: FsView, root: string, points: seq<string>, mountSeq: seq<string>, attempted: seq<string>)
    requires StrictlySorted(mountSeq)
    requires forall mp :: mp in mountSeq <==> mp in points && IsChildMount(mp, root)
    requires attempted <= Candidates(fs, root, mountSeq) && attempted != []
    ensures forall mp :: Restored(fs, points, root, mp) && Less(mp, attempted[|attempted| - 1]) ==> mp in attempted
  {
    CandidatesSorted(fs, root, mountSeq);
    forall mp | Restored(fs, points, root, mp) && Less(mp, attempted[|attempted| - 1]) ensures mp in attempted {
      CandidatesMeans(fs, root, mountSeq, mp);
      SortedPrefixBelow(Candidates(fs, root, mountSeq), attempted, mp);
    }
  }

  lemma CandidatesStep(fs: FsView, root: string, s: seq<string>, i: nat)
    requires i < |s|
    ensures Candidates(fs, root, s[..i + 1]) ==
      Candidates(fs, root, s[..i]) + (if fs.Exists(ChildStock(s[i], root)) then [s[i]] else [])
  {
    assert s[..i + 1][..i] == s[..i];
  }

  /** One turn of the loop: a nested point is attempted when its stock
      directory exists, and the attempt has the outcome of `mount_overlay_child`. */
  method MountCandidate(k: Kernel, fs: FsView, root: string, roots: seq<string>, source: string, mountPoint: string)
    returns (tried: bool, c: Outcome)
    ensures tried <==> fs.Exists(ChildStock(mountPoint, root))
    ensures tried ==> c == ChildOutcomeAt(k, fs, roots, root, mountPoint)
  {
    var relative := ReplaceFirst(mountPoint, root, "");
    var stock := "." + relative;
    tried := fs.Exists(stock);
    c := Pass;
    if tried {
      var act, registered;
      c, act, registered := MountOverlayChild(k, fs, mountPoint, relative, roots, stock, source);
    }
  }

  /** What the exit of the loop of `MountChildren` gives. */
  lemma MountChildrenExit(fs: FsView, root: string, mountSeq: seq<string>, i: nat, attempted: seq<string>, failed: bool)
    requires StrictlySorted(mountSeq) && i <= |mountSeq|
    requires attempted == Candidates(fs, root, mountSeq[..i])
    requires !failed ==> i == |mountSeq|
    ensures attempted <= Candidates(fs, root, mountSeq)
    ensures !failed ==> attempted == Candidates(fs, root, mountSeq)
    ensures StrictlySorted(attempted)
    ensures forall mp :: mp in attempted ==> mp in mountSeq && fs.Exists(ChildStock(mp, root))
    ensures !failed ==> forall mp :: mp in attempted <==> mp in mountSeq && fs.Exists(ChildStock(mp, root))
  {
    CandidatesPrefix(fs, root, mountSeq, i);
    if !failed {
      assert mountSeq[..i] == mountSeq;
    }
    CandidatesSorted(fs, root, mountSeq);
    forall mp ensures mp in Candidates(fs, root, mountSeq) <==> mp in mountSeq && fs.Exists(ChildStock(mp, root)) {
      CandidatesMeans(fs, root, mountSeq, mp);
    }
  }
}
