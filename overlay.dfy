/** The older overlay mounter: the whole layer list in one option, no escaping,
    nested mounts restored by bind mounts whose failures are only logged, and
    every successful mount registered for unmounting unless that is disabled. */
module Overlay {
  import opened Wrappers
  import opened Strs
  import opened FsView
  import opened MountKernel
  import OverlayFs

  /** The legacy option string, with the paths as they are. */
  function Data(lowerdir: string, upper: Option<string>, work: Option<string>): string {
    "lowerdir=" + lowerdir
    + (if upper.Some? && work.Some? then ",upperdir=" + upper.value + ",workdir=" + work.value else "")
  }

  /** The option string names the lower directories first, verbatim, and the
      work directory last when both read-write directories are used. */
  lemma DataShape(lowerdir: string, upper: Option<string>, work: Option<string>)
    ensures StartsWith(Data(lowerdir, upper, work), "lowerdir=" + lowerdir)
    ensures upper.Some? && work.Some? ==> EndsWith(Data(lowerdir, upper, work), ",workdir=" + work.value)
    ensures !(upper.Some? && work.Some?) ==> Data(lowerdir, upper, work) == "lowerdir=" + lowerdir
  {
    var d := Data(lowerdir, upper, work);
    assert d[..|"lowerdir=" + lowerdir|] == "lowerdir=" + lowerdir;
    if upper.Some? && work.Some? {
      var tail := ",workdir=" + work.value;
      assert d == ("lowerdir=" + lowerdir + ",upperdir=" + upper.value) + tail;
      assert d[|d| - |tail|..] == tail;
    }
  }

  /** The option string carries a nul byte exactly when one of the paths it
      names does: the keys themselves have none. */
  lemma DataNul(lowerdir: string, upper: Option<string>, work: Option<string>)
    ensures '\0' in Data(lowerdir, upper, work) <==>
      '\0' in lowerdir || (upper.Some? && work.Some? && ('\0' in upper.value || '\0' in work.value))
  {
    assert '\0' !in "lowerdir=";
    if upper.Some? && work.Some? {
      assert '\0' !in ",upperdir=" && '\0' !in ",workdir=";
      assert Data(lowerdir, upper, work)
        == "lowerdir=" + lowerdir + ",upperdir=" + upper.value + ",workdir=" + work.value;
    }
  }

  function MountOutcome(k: Kernel, lowerdir: string, upper: Option<string>, work: Option<string>, dest: string): (r: Outcome)
    ensures r.Pass? <==> k.fsopenMount(dest) || ('\0' !in Data(lowerdir, upper, work) && k.legacyMount(dest))
  {
    if k.fsopenMount(dest) then Pass
    else if '\0' in Data(lowerdir, upper, work) then Fail("nul byte in mount data")
    else if k.legacyMount(dest) then Pass
    else Fail("mount failed")
  }

  /** `mount_overlayfs`: every module layer, then the stock root, joined with
      `:` and never cut; the destination is registered for unmounting after
      a successful mount unless unmounting is disabled. */
  method MountOverlayFs(k: Kernel, fs: FsView, lowerDirs: seq<string>, lowest: string,
                        upperdir: Option<string>, workdir: Option<string>, dest: string, disableUmount: bool)
    returns (r: Outcome, lowerdir: string, upper: Option<string>, work: Option<string>, registered: bool)
    ensures lowerdir == Join(lowerDirs + [lowest], ':')
    ensures (upper, work) == OverlayFs.RwPair(fs, upperdir, workdir)
    ensures r == MountOutcome(k, lowerdir, upper, work, dest)
    ensures registered <==> r.Pass? && !disableUmount
  {
    lowerdir := Join(lowerDirs + [lowest], ':');
    upper := if upperdir.Some? && fs.Exists(upperdir.value) then upperdir else None;
    work := if workdir.Some? && fs.Exists(workdir.value) then workdir else None;
    if !(upper.Some? && work.Some?) {
      upper, work := None, None;
    }
    registered := false;
    if !k.fsopenMount(dest) {
      var data := Data(lowerdir, upper, work);
      if '\0' in data {
        r := Fail("nul byte in mount data");
        return;
      }
      if !k.legacyMount(dest) {
        r := Fail("mount failed");
        return;
      }
    }
    registered := !disableUmount;
    r := Pass;
  }

  /** `bind_mount`: a recursive clone moved into place, with no fallback. */
  function BindMount(k: Kernel, from: string, to: string): (r: Outcome)
    ensures r.Pass? <==> k.openTree(from) && k.moveMount(to)
  {
    if !k.openTree(from) then Fail("open_tree failed")
    else if !k.moveMount(to) then Fail("move_mount failed")
    else Pass
  }

  /** `mount_overlay`. A missing root is skipped without error; once the root
      is mounted, every nested mount point with a stock directory is
      bind-mounted back and the call succeeds whatever those binds do. */
  method MountOverlay(k: Kernel, fs: FsView, root: string, roots: seq<string>, workdir: Option<string>,
                      upperdir: Option<string>, disableUmount: bool, chdirOk: bool, mountInfo: Option<seq<string>>)
    returns (r: Outcome, rootMounted: bool, attempted: seq<string>, registered: seq<string>)
    ensures !fs.Exists(root) ==> r.Pass? && !rootMounted && attempted == [] && registered == []
    ensures rootMounted <==> (fs.Exists(root) && chdirOk && mountInfo.Some?
      && MountOutcome(k, Join(roots + [root], ':'), OverlayFs.RwPair(fs, upperdir, workdir).0,
                      OverlayFs.RwPair(fs, upperdir, workdir).1, root).Pass?)
    ensures r.Pass? <==> !fs.Exists(root) || rootMounted
    ensures !rootMounted ==> attempted == [] && registered == []
    ensures rootMounted ==> forall mp :: mp in attempted <==> OverlayFs.Restored(fs, mountInfo.value, root, mp)
    ensures StrictlySorted(attempted)
    ensures disableUmount ==> registered == []
    ensures rootMounted && !disableUmount ==>
      |registered| >= 1 && registered[0] == root
      && forall mp :: mp in registered[1..] <==>
           mp in attempted && BindMount(k, OverlayFs.ChildStock(mp, root), mp).Pass?
  {
    attempted, registered, rootMounted := [], [], false;
    if !fs.Exists(root) {
      return Pass, rootMounted, attempted, registered;
    }
    if !chdirOk {
      return Fail("failed to chdir"), rootMounted, attempted, registered;
    }
    if mountInfo.None? {
      return Fail("get mountinfo"), rootMounted, attempted, registered;
    }
    var mountSeq := OverlayFs.ChildMountSeq(mountInfo.value, root);
    var o, lowerdir, upper, work, reg := MountOverlayFs(k, fs, roots, root, upperdir, workdir, root, disableUmount);
    if o.Fail? {
      return Fail("mount overlayfs for root failed"), rootMounted, attempted, registered;
    }
    rootMounted := true;
    var bound;
    attempted, bound := BindChildren(k, fs, root, mountSeq, disableUmount);
    registered := (if reg then [root] else []) + bound;
    assert !disableUmount ==> registered[1..] == bound;
    r := Pass;
  }

  /** The loop of `mount_overlay` over the nested mount points, in sorted
      order: each one with a stock directory is bind-mounted back, and the
      successful binds are registered for unmounting unless that is
      disabled. */
  method BindChildren(k: Kernel, fs: FsView, root: string, mountSeq: seq<string>, disableUmount: bool)
    returns (attempted: seq<string>, bound: seq<string>)
    requires StrictlySorted(mountSeq)
    ensures StrictlySorted(attempted)
    ensures forall mp :: mp in attempted <==> mp in mountSeq && fs.Exists(OverlayFs.ChildStock(mp, root))
    ensures disableUmount ==> bound == []
    ensures !disableUmount ==>
      forall mp :: mp in bound <==> mp in attempted && BindMount(k, OverlayFs.ChildStock(mp, root), mp).Pass?
  {
    attempted, bound := [], [];
    var i := 0;
    while i < |mountSeq|
      invariant 0 <= i <= |mountSeq|
      invariant forall mp :: mp in attempted <==> mp in mountSeq[..i] && fs.Exists(OverlayFs.ChildStock(mp, root))
      invariant forall a, b :: 0 <= a < b < |attempted| ==> Less(attempted[a], attempted[b])
      invariant disableUmount ==> bound == []
      invariant !disableUmount ==>
        forall mp :: mp in bound <==> mp in attempted && BindMount(k, OverlayFs.ChildStock(mp, root), mp).Pass?
    {
      var mountPoint := mountSeq[i];
      assert forall x :: x in mountSeq[..i + 1] <==> x in mountSeq[..i] || x == mountPoint by {
        assert mountSeq[..i + 1] == mountSeq[..i] + [mountPoint];
      }
      var relative := ReplaceFirst(mountPoint, root, "");
      var stock := "." + relative;
      if fs.Exists(stock) {
        forall a | 0 <= a < |attempted| ensures Less(attempted[a], mountPoint) {
          assert attempted[a] in mountSeq[..i];
          var j :| 0 <= j < i && mountSeq[..i][j] == attempted[a];
          assert mountSeq[j] == attempted[a];
        }
        attempted := attempted + [mountPoint];
        var b := BindMount(k, stock, mountPoint);
        if b.Pass? && !disableUmount {
          bound := bound + [mountPoint];
        }
      }
      i := i + 1;
    }
    assert mountSeq[..i] == mountSeq;
  }
}
