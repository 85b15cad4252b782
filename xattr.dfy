/** SELinux labels and overlay extended attributes: reading and writing a
    label, copying a file's attributes, guessing a label from a path, and
    choosing the label of a file placed into a system directory. */
module Xattr {
  import opened Wrappers
  import opened Strs
  import opened FsView

  const SelinuxXattr: string := "security.selinux"
  const OverlayOpaqueXattr: string := "trusted.overlay.opaque"
  const OverlayXattrPrefix: string := "trusted.overlay."
  const ContextSystem: string := "u:object_r:system_file:s0"
  const ContextVendor: string := "u:object_r:vendor_file:s0"
  const ContextHal: string := "u:object_r:same_process_hal_file:s0"
  const ContextVendorExec: string := "u:object_r:vendor_file:s0"
  const ContextRootfs: string := "u:object_r:rootfs:s0"
  const ContextUnlabeled: string := "u:object_r:unlabeled:s0"

  /** One attribute write issued by the model; whether the kernel accepts it
      is never looked at. */
  datatype XattrWrite = XattrWrite(path: string, name: string, value: string)

  /** `lgetfilecon`: the raw `security.selinux` value with NULs stripped from
      both ends; an error when the file has no readable label. `labels` maps
      a path to its raw attribute value. */
  function LGetFileCon(labels: map<string, string>, path: string): (r: Result<string>)
    ensures r.Ok? <==> path in labels
    ensures r.Ok? ==> TrimmedOf(labels[path], r.value, IsNul)
  {
    if path in labels then Ok(TrimBy(labels[path], IsNul)) else Err("Failed to get SELinux context for " + path)
  }

  /** `lsetfilecon`: the label write is issued and the call succeeds whether
      or not the kernel accepts it. */
  function LSetFileCon(path: string, con: string): (r: (Outcome, XattrWrite))
    ensures r.0 == Pass
    ensures r.1.path == path && r.1.name == SelinuxXattr && r.1.value == con
  {
    (Pass, XattrWrite(path, SelinuxXattr, con))
  }

  /** The label given to a copy: the source's label unless it mentions the
      rootfs label or cannot be read, in which case the system label. */
  function CopiedLabel(src: Result<string>): (r: string)
    ensures r == ContextSystem || (src.Ok? && r == src.value && !Contains(src.value, ContextRootfs))
    ensures src.Ok? && !Contains(src.value, ContextRootfs) ==> r == src.value
    ensures src.Err? ==> r == ContextSystem
  {
    if src.Ok? && !Contains(src.value, ContextRootfs) then src.value else ContextSystem
  }

  /** Overlay attribute names copied in the listing loop: `trusted.overlay.*`
      except the opaque marker, which is copied on its own. */
  predicate CopiedInLoop(name: string) {
    StartsWith(name, OverlayXattrPrefix) && name != OverlayOpaqueXattr
  }

  /** The writes of the listing loop over `names`, in listing order. */
  function LoopCopies(dst: string, attrs: map<string, string>, names: seq<string>): seq<XattrWrite> {
    if names == [] then []
    else
      var name := names[|names| - 1];
      LoopCopies(dst, attrs, names[..|names| - 1])
      + (if CopiedInLoop(name) && name in attrs then [XattrWrite(dst, name, attrs[name])] else [])
  }

  /** A loop write is exactly a readable overlay attribute of the source,
      other than the opaque marker, with its value, onto `dst`. */
  lemma {:induction false} LoopCopiesMeans(dst: string, attrs: map<string, string>, names: seq<string>, w: XattrWrite)
    ensures w in LoopCopies(dst, attrs, names) <==>
      w.path == dst && w.name in names && CopiedInLoop(w.name) && w.name in attrs && w.value == attrs[w.name]
  {
    if names != [] {
      var init := names[..|names| - 1];
      LoopCopiesMeans(dst, attrs, init, w);
      assert names == init + [names[|names| - 1]];
    }
  }

  /** `copy_extended_attributes`. `labels` holds the raw labels, `attrs` the
      source's readable extended attributes and `names` its attribute listing
      (`None` when it cannot be listed). The label is written first, then the
      opaque marker if the source has one, then the other overlay attributes
      in listing order; every failure is ignored. */
  method CopyExtendedAttributes(labels: map<string, string>, src: string, dst: string,
                                attrs: map<string, string>, names: Option<seq<string>>)
    returns (r: Outcome, writes: seq<XattrWrite>)
    ensures r == Pass
    ensures |writes| >= 1 && writes[0] == XattrWrite(dst, SelinuxXattr, CopiedLabel(LGetFileCon(labels, src)))
    ensures var opaqueCopy := if OverlayOpaqueXattr in attrs then [XattrWrite(dst, OverlayOpaqueXattr, attrs[OverlayOpaqueXattr])] else [];
      writes == [writes[0]] + opaqueCopy + (if names.Some? then LoopCopies(dst, attrs, names.value) else [])
  {
    var ctx := LGetFileCon(labels, src);
    var ctxLabel := if ctx.Ok? && Contains(ctx.value, ContextRootfs) then ContextSystem
                 else if ctx.Ok? then ctx.value else ContextSystem;
    var set0 := LSetFileCon(dst, ctxLabel);
    var opaqueCopy := [];
    if OverlayOpaqueXattr in attrs {
      opaqueCopy := [XattrWrite(dst, OverlayOpaqueXattr, attrs[OverlayOpaqueXattr])];
    }
    var copies := [];
    if names.Some? {
      copies := CopyListed(dst, attrs, names.value);
    }
    writes := [set0.1] + opaqueCopy + copies;
    r := Pass;
  }

  /** The loop of `copy_extended_attributes` over the attribute listing:
      the overlay attributes it copies, in listing order. */
  method CopyListed(dst: string, attrs: map<string, string>, ns: seq<string>) returns (writes: seq<XattrWrite>)
    ensures writes == LoopCopies(dst, attrs, ns)
  {
    writes := [];
    var i := 0;
    while i < |ns|
      invariant 0 <= i <= |ns|
      invariant writes == LoopCopies(dst, attrs, ns[..i])
    {
      var name := ns[i];
      assert ns[..i + 1][..i] == ns[..i];
      if CopiedInLoop(name) && name in attrs {
        writes := writes + [XattrWrite(dst, name, attrs[name])];
      }
      i := i + 1;
    }
    assert ns[..i] == ns;
  }

  const TmpfsXattrKey: string := "CONFIG_TMPFS_XATTR"

  /** The key and value a configuration line sets, trimmed; `None` for a
      comment or a line without `=`. */
  function Setting(line: string): (r: Option<(string, string)>)
    ensures r.None? <==> StartsWith(line, "#") || '=' !in line
  {
    if StartsWith(line, "#") then None
    else match SplitOnce(line, '=')
      case None => None
      case Some(kv) => Some((Trim(kv.0), Trim(kv.1)))
  }

  /** No line among the first `n` sets tmpfs extended attributes. */
  ghost predicate NoneEnables(lines: seq<string>, n: nat)
    requires n <= |lines|
  {
    forall j :: 0 <= j < n ==> Setting(lines[j]) != Some((TmpfsXattrKey, "y"))
  }

  lemma NoneEnablesStep(lines: seq<string>, n: nat)
    requires n < |lines| && NoneEnables(lines, n)
    requires Setting(lines[n]) != Some((TmpfsXattrKey, "y"))
    ensures NoneEnables(lines, n + 1)
  {
  }

  /** `is_overlay_xattr_supported` over the decompressed kernel
      configuration `config`: true exactly when one of its lines sets
      `CONFIG_TMPFS_XATTR` to `y`. */
  method IsOverlayXattrSupported(config: string) returns (r: Result<bool>)
    ensures r.Ok?
    ensures r.value <==> exists i :: 0 <= i < |Lines(config)| && Setting(Lines(config)[i]) == Some((TmpfsXattrKey, "y"))
  {
    var lines := Lines(config);
    var i := 0;
    while i < |lines|
      invariant 0 <= i <= |lines|
      invariant NoneEnables(lines, i)
    {
      var enables := LineEnables(lines[i]);
      if enables {
        assert lines == Lines(config);
        return Ok(true);
      }
      NoneEnablesStep(lines, i);
      i := i + 1;
    }
    r := Ok(false);
  }

  /** One line of the loop in `is_overlay_xattr_supported`: comments are
      skipped, and a `key=value` line enables extended attributes on tmpfs
      when both sides, trimmed, are the key and `y`. */
  method LineEnables(line: string) returns (b: bool)
    ensures b <==> Setting(line) == Some((TmpfsXattrKey, "y"))
  {
    b := false;
    if !StartsWith(line, "#") {
      var kv := SplitOnce(line, '=');
      if kv.Some? {
        var k, v := Trim(kv.value.0), Trim(kv.value.1);
        b := k == TmpfsXattrKey && v == "y";
      }
    }
  }

  /** A line without `=` and a commented-out setting never set anything;
      the plain setting does. */
  lemma SettingOfPlainLine(key: string, value: string)
    requires !StartsWith(key + "=" + value, "#")
    ensures '=' !in key ==> Setting(key + "=" + value) == Some((Trim(key), Trim(value)))
    ensures Setting(key + "=" + value) == Some((key, value)) ==> '=' !in key && Trim(key) == key && Trim(value) == value
  {
    var line := key + "=" + value;
    if '=' !in key {
      var kv := SplitOnce(line, '=');
      var i := |key|;
      assert line[i] == '=';
      assert line[..i] == key;
      IndexOfAfter(key, '=', "=" + value);
      assert kv.value.0 == key;
      assert kv.value.1 == value;
    }
  }

  predicate VendorPath(p: string) {
    StartsWith(p, "/vendor") || StartsWith(p, "/odm")
  }

  predicate HalPath(p: string) {
    Contains(p, "/lib/") || Contains(p, "/lib64/") || EndsWith(p, ".so")
  }

  /** `guess_context_by_path`: libraries under the vendor or odm tree are
      same-process HAL files, the rest of that tree is vendor files, and
      everything else is system files. The prefix test is on the text. */
  function GuessContext(p: string): (r: string)
    ensures r == ContextHal <==> VendorPath(p) && HalPath(p)
    ensures r == ContextVendor <==> VendorPath(p) && !HalPath(p)
    ensures r == ContextSystem <==> !VendorPath(p)
  {
    if VendorPath(p) then
      if HalPath(p) then ContextHal
      else if Contains(p, "/bin/") then ContextVendorExec
      else if Contains(p, "/firmware") then ContextVendor
      else ContextVendor
    else ContextSystem
  }

  /** What `apply_system_context` does to a file's label. */
  datatype LabelAction = Keep | Relabel(ctx: string)

  predicate IsRwDir(current: string) {
    FileName(current) == Some("upperdir") || FileName(current) == Some("workdir")
  }

  /** A label that `apply_system_context` leaves in place. */
  predicate Meaningful(ctx: string) {
    ctx != "" && ctx != ContextRootfs && ctx != ContextUnlabeled
  }

  /** `apply_system_context` for the file `current` that will appear at
      `/relative`. Every branch ends in `lsetfilecon`, which cannot fail, so
      the call always succeeds and only its label choice is modelled. */
  function ApplySystemContext(fs: FsView, labels: map<string, string>, current: string, relative: string): (a: LabelAction)
    ensures IsRwDir(current) && Parent(current).Some? && LGetFileCon(labels, Parent(current).value).Ok? ==>
      a == Relabel(LGetFileCon(labels, Parent(current).value).value)
    ensures a.Keep? <==>
      && !(IsRwDir(current) && Parent(current).Some? && LGetFileCon(labels, Parent(current).value).Ok?)
      && LGetFileCon(labels, current).Ok? && Meaningful(LGetFileCon(labels, current).value)
    ensures a.Relabel? && !(IsRwDir(current) && Parent(current).Some? && LGetFileCon(labels, Parent(current).value).Ok?) ==>
      a.ctx != ContextRootfs
    ensures a.Relabel? && a.ctx != ContextHal && a.ctx != ContextVendor && a.ctx != ContextSystem ==>
      exists p :: p in labels && LGetFileCon(labels, p).value == a.ctx
  {
    var parent := Parent(current);
    if IsRwDir(current) && parent.Some? && LGetFileCon(labels, parent.value).Ok? then
      Relabel(LGetFileCon(labels, parent.value).value)
    else
      var currentCtx := LGetFileCon(labels, current);
      if currentCtx.Ok? && Meaningful(currentCtx.value) then Keep
      else
        var systemPath := PathJoin("/", relative);
        var systemParent := Parent(systemPath);
        var sysCtx := LGetFileCon(labels, systemPath);
        if fs.Exists(systemPath) && sysCtx.Ok? then
          Relabel(if sysCtx.value == ContextRootfs then ContextSystem else sysCtx.value)
        else if !fs.Exists(systemPath) && systemParent.Some? && fs.Exists(systemParent.value)
                && LGetFileCon(labels, systemParent.value).Ok?
                && LGetFileCon(labels, systemParent.value).value != ContextRootfs then
          var parentCtx := LGetFileCon(labels, systemParent.value).value;
          if GuessContext(systemPath) == ContextHal && parentCtx == ContextVendor then Relabel(ContextHal)
          else Relabel(parentCtx)
        else Relabel(GuessContext(systemPath))
  }

  /** A file whose system counterpart exists with a label takes that label,
      the rootfs label turned into the system one. */
  lemma SystemCounterpartLabel(fs: FsView, labels: map<string, string>, current: string, relative: string)
    requires !(IsRwDir(current) && Parent(current).Some? && LGetFileCon(labels, Parent(current).value).Ok?)
    requires !(LGetFileCon(labels, current).Ok? && Meaningful(LGetFileCon(labels, current).value))
    requires fs.Exists(PathJoin("/", relative)) && PathJoin("/", relative) in labels
    ensures var con := TrimBy(labels[PathJoin("/", relative)], IsNul);
      ApplySystemContext(fs, labels, current, relative)
        == Relabel(if con == ContextRootfs then ContextSystem else con)
  {
  }

  /** A file without a system counterpart, under a vendor-labelled system
      directory, becomes a HAL file exactly when its path looks like a
      library. */
  lemma VendorParentLabel(fs: FsView, labels: map<string, string>, current: string, relative: string)
    requires !(IsRwDir(current) && Parent(current).Some? && LGetFileCon(labels, Parent(current).value).Ok?)
    requires !(LGetFileCon(labels, current).Ok? && Meaningful(LGetFileCon(labels, current).value))
    requires var sp := PathJoin("/", relative);
      && !fs.Exists(sp) && Parent(sp).Some? && fs.Exists(Parent(sp).value) && Parent(sp).value in labels
      && TrimBy(labels[Parent(sp).value], IsNul) == ContextVendor
    ensures var sp := PathJoin("/", relative);
      ApplySystemContext(fs, labels, current, relative) == Relabel(ContextHal) <==> VendorPath(sp) && HalPath(sp)
  {
  }
}
