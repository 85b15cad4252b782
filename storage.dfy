/** The module storage: the choice between an EROFS image staged on tmpfs,
    a plain tmpfs and an ext4 image; the staging commit; the usage figures;
    and the size of the image to create. */
module Storage {
  import opened Wrappers
  import opened Strs

  const ModeErofsStaging: string := "erofs_staging"
  const ModeErofs: string := "erofs"
  const ModeTmpfs: string := "tmpfs"
  const ModeExt4: string := "ext4"

  // ---------------------------------------------------------------------------
  // Unsigned 64-bit arithmetic as a release build performs it

  const U64Modulus: int := 0x1_0000_0000_0000_0000

  predicate IsU64(x: int) {
    0 <= x < U64Modulus
  }

  function Wrap64(x: int): (r: int)
    ensures IsU64(r)
    ensures IsU64(x) ==> r == x
  {
    x % U64Modulus
  }

  /** `as u8`: the low eight bits. */
  function TruncU8(x: int): (r: int)
    ensures 0 <= r < 256
    ensures 0 <= x < 256 ==> r == x
  {
    x % 256
  }

  /** The figures `statvfs` reports that the usage is computed from. */
  datatype StatVfs = StatVfs(blocks: int, bfree: int, frsize: int)

  predicate ValidStat(s: StatVfs) {
    IsU64(s.blocks) && IsU64(s.bfree) && IsU64(s.frsize)
  }

  /** `get_usage`: total bytes, used bytes and the used percentage, with the
      wrap-around of `u64` arithmetic and the truncation to `u8`; a zero
      total gives a zero percentage and a failed `statvfs` gives zeros. */
  function GetUsage(stat: Option<StatVfs>): (r: (int, int, int))
    requires stat.Some? ==> ValidStat(stat.value)
    ensures IsU64(r.0) && IsU64(r.1) && 0 <= r.2 < 256
    ensures stat.None? ==> r == (0, 0, 0)
    ensures r.0 == 0 ==> r.2 == 0
  {
    match stat
    case None => (0, 0, 0)
    case Some(s) =>
      var total := Wrap64(s.blocks * s.frsize);
      var free := Wrap64(s.bfree * s.frsize);
      var used := Wrap64(total - free);
      var percent := if total == 0 then 0 else TruncU8(Wrap64(used * 100) / total);
      (total, used, percent)
  }

  /** On a file system whose sizes fit 64 bits and whose free blocks do not
      exceed its blocks, nothing wraps: the used bytes are the used blocks
      times the fragment size and the percentage is at most 100. */
  lemma GetUsageExact(s: StatVfs)
    requires ValidStat(s)
    requires s.bfree <= s.blocks
    requires IsU64(s.blocks * s.frsize * 100)
    ensures var r := GetUsage(Some(s));
      && r.0 == s.blocks * s.frsize
      && r.1 == (s.blocks - s.bfree) * s.frsize
      && (r.0 > 0 ==> r.2 == r.1 * 100 / r.0 && r.2 <= 100)
  {
    var total := s.blocks * s.frsize;
    var free := s.bfree * s.frsize;
    MulMono(s.bfree, s.blocks, s.frsize);
    MulMono(1, 100, total);
    SubMul(s.blocks, s.bfree, s.frsize);
    UsageFromFigures(total, free);
  }

  /** The usage arithmetic on figures that fit: nothing wraps or truncates. */
  lemma UsageFromFigures(total: int, free: int)
    requires IsU64(total) && IsU64(free) && free <= total && IsU64(total * 100)
    ensures Wrap64(total) == total && Wrap64(free) == free
    ensures Wrap64(total - free) == total - free
    ensures Wrap64((total - free) * 100) == (total - free) * 100
    ensures total > 0 ==> TruncU8((total - free) * 100 / total) == (total - free) * 100 / total
    ensures total > 0 ==> (total - free) * 100 / total <= 100
  {
    var used := total - free;
    MulMono(used, total, 100);
    if total > 0 {
      DivBound(used * 100, total, 100);
    }
  }

  lemma SubMul(a: int, b: int, c: int)
    ensures (a - b) * c == a * c - b * c
  {
  }

  lemma MulMono(a: int, b: int, c: int)
    requires 0 <= a <= b && 0 <= c
    ensures 0 <= a * c <= b * c
  {
  }

  lemma DivBound(x: int, d: int, k: int)
    requires 0 <= x <= d * k && d > 0 && k >= 0
    ensures x / d <= k
  {
  }

  // ---------------------------------------------------------------------------
  // Image size

  /** A directory tree as `calculate_total_size` sees it: a regular file with
      its length (`metaOk` false when its metadata cannot be read), a
      directory (`readable` false when it cannot be listed), or anything
      else, such as a symbolic link. */
  datatype Node = File(size: nat, metaOk: bool) | Dir(readable: bool, children: seq<Node>) | Other

  /** Every directory can be listed and every file's length read. */
  predicate Readable(n: Node) {
    match n
    case File(_, ok) => ok
    case Dir(ok, cs) => ok && forall i :: 0 <= i < |cs| ==> Readable(cs[i])
    case Other => true
  }

  /** The bytes in the regular files below `n`. */
  function Size(n: Node): nat {
    match n
    case File(size, _) => size
    case Dir(_, cs) => SizeAll(cs)
    case Other => 0
  }

  function SizeAll(cs: seq<Node>): nat {
    if cs == [] then 0 else SizeAll(cs[..|cs| - 1]) + Size(cs[|cs| - 1])
  }

  /** `calculate_total_size` on the tree below a directory; a path that is
      not a directory has size zero. */
  method CalculateTotalSize(n: Node) returns (r: Result<nat>)
    ensures r.Ok? <==> (n.Dir? ==> Readable(n))
    ensures r.Ok? ==> r.value == (if n.Dir? then Size(n) else 0)
    decreases n
  {
    var total := 0;
    if n.Dir? {
      if !n.readable {
        return Err("read_dir failed");
      }
      var cs := n.children;
      var i := 0;
      while i < |cs|
        invariant 0 <= i <= |cs|
        invariant forall j :: 0 <= j < i ==> Readable(cs[j])
        invariant total == SizeAll(cs[..i])
      {
        var c := cs[i];
        assert cs[..i + 1][..i] == cs[..i];
        match c {
          case File(size, ok) =>
            if !ok {
              return Err("metadata failed");
            }
            total := total + size;
          case Dir(_, _) =>
            var sub := CalculateTotalSize(c);
            if sub.Err? {
              return sub;
            }
            total := total + sub.value;
          case Other =>
        }
        i := i + 1;
      }
      assert cs[..i] == cs;
    }
    r := Ok(total);
  }

  /** Files in different subtrees add up. */
  lemma {:induction false} SizeAllAppend(a: seq<Node>, b: seq<Node>)
    ensures SizeAll(a + b) == SizeAll(a) + SizeAll(b)
    decreases |b|
  {
    if b != [] {
      var b' := b[..|b| - 1];
      assert (a + b)[..|a + b| - 1] == a + b';
      assert (a + b)[|a + b| - 1] == b[|b| - 1];
      SizeAllAppend(a, b');
    } else {
      assert a + b == a;
    }
  }

  /** Symbolic links and other special entries never add to the size. */
  lemma OtherEntriesIgnored(cs: seq<Node>)
    ensures SizeAll(cs + [Other]) == SizeAll(cs)
  {
    assert (cs + [Other])[..|cs|] == cs;
  }

  /** The headroom added to the modules' size for a new ext4 image. */
  const ImageHeadroom: nat := 128 * 1024 * 1024

  /** The length a new ext4 image is given. */
  function GrowSize(totalSize: nat): (r: int)
    requires IsU64(totalSize)
    ensures IsU64(r)
    ensures totalSize + ImageHeadroom < U64Modulus ==> r == totalSize + ImageHeadroom && r >= ImageHeadroom
  {
    Wrap64(ImageHeadroom + totalSize)
  }

  // ---------------------------------------------------------------------------
  // Choosing and committing the storage

  /** `Path::with_extension`: the file name's extension, if any, replaced. */
  function WithExtension(p: string, ext: string): (r: string)
    ensures EndsWith(r, "." + ext)
  {
    var slash := LastIndex(p, '/');
    var name := p[slash..];
    var dot := LastIndex(name, '.');
    var stem := if dot > 1 then p[..slash + dot - 1] else p;
    var r := stem + "." + ext;
    assert r[|r| - |"." + ext|..] == "." + ext;
    r
  }

  /** One past the position of the last `c`, or 0 when there is none. */
  function LastIndex(s: string, c: char): (i: nat)
    ensures i <= |s|
    ensures i > 0 ==> s[i - 1] == c
    ensures c !in s[i..]
  {
    if s == [] then 0
    else if s[|s| - 1] == c then |s|
    else
      var i := LastIndex(s[..|s| - 1], c);
      assert s[i..] == s[..|s| - 1][i..] + [s[|s| - 1]];
      i
  }

  /** The storage the module files are served from. */
  class StorageHandle {
    var mountPoint: string
    var mode: string
    var backingImage: Option<string>

    constructor (mountPoint: string, mode: string, backingImage: Option<string>)
      ensures this.mountPoint == mountPoint && this.mode == mode && this.backingImage == backingImage
    {
      this.mountPoint := mountPoint;
      this.mode := mode;
      this.backingImage := backingImage;
    }

    /** `commit`: staged EROFS storage is packed into its image, the staging
        tmpfs is detached and the image mounted in its place, after which the
        mode becomes `erofs`; every other mode is left alone. `packOk`,
        `umountOk` and `mountOk` are the outcomes of the three steps; `hidden`
        says whether the mount point was queued for unmounting. */
    method Commit(disableUmount: bool, packOk: bool, umountOk: bool, mountOk: bool) returns (r: Outcome, hidden: bool)
      modifies this
      ensures mountPoint == old(mountPoint) && backingImage == old(backingImage)
      ensures old(mode) != ModeErofsStaging ==> r == Pass && mode == old(mode) && !hidden
      ensures old(mode) == ModeErofsStaging ==>
        && (r.Pass? <==> backingImage.Some? && packOk && umountOk && mountOk)
        && (mode == if r.Pass? then ModeErofs else ModeErofsStaging)
        && (hidden <==> r.Pass? && !disableUmount)
    {
      hidden := false;
      if mode == ModeErofsStaging {
        if backingImage.None? {
          return Fail("EROFS backing image path missing"), hidden;
        }
        if !packOk {
          return Fail("Failed to pack EROFS image"), hidden;
        }
        if !umountOk {
          return Fail("Failed to unmount staging tmpfs"), hidden;
        }
        if !mountOk {
          return Fail("Failed to mount finalized EROFS image"), hidden;
        }
        if !disableUmount {
          hidden := true;
        }
        mode := ModeErofs;
      }
      r := Pass;
    }
  }

  /** `try_setup_tmpfs`: true when the tmpfs mounts and supports extended
      attributes; a tmpfs without them is unmounted again. It never fails. */
  method TrySetupTmpfs(mountOk: bool, xattrOk: bool) returns (r: Result<bool>, unmounted: bool)
    ensures r.Ok?
    ensures r.value <==> mountOk && xattrOk
    ensures unmounted <==> mountOk && !xattrOk
  {
    unmounted := false;
    if mountOk {
      if xattrOk {
        return Ok(true), unmounted;
      }
      unmounted := true;
    }
    r := Ok(false);
  }

  /** The storage `setup` settles on. */
  datatype StorageChoice = StorageChoice(mountPoint: string, mode: string, backingImage: Option<string>)

  /** `setup`. `erofsSupported` is the kernel's EROFS support, `stagingMountOk`
      the tmpfs mount for staging, `tmpfsMountOk` and `xattrOk` the plain
      tmpfs attempt, and `ext4` the outcome of preparing and mounting the ext4
      image. `hidden` says whether the storage was queued for unmounting;
      `erofsRemoved` whether a stale EROFS image was removed. */
  method Setup(mntBase: string, imgPath: string, forceExt4: bool, useErofs: bool, disableUmount: bool,
               erofsSupported: bool, stagingMountOk: bool, tmpfsMountOk: bool, xattrOk: bool,
               erofsImageExists: bool, ext4: Outcome)
    returns (r: Result<StorageChoice>, hidden: bool, erofsRemoved: bool)
    ensures useErofs && erofsSupported ==>
      r == (if stagingMountOk then Ok(StorageChoice(mntBase, ModeErofsStaging, Some(WithExtension(imgPath, "erofs"))))
            else Err("mount tmpfs failed"))
    ensures !(useErofs && erofsSupported) && !forceExt4 && tmpfsMountOk && xattrOk ==>
      r == Ok(StorageChoice(mntBase, ModeTmpfs, None))
    ensures !(useErofs && erofsSupported) && !(!forceExt4 && tmpfsMountOk && xattrOk) ==>
      (r.Ok? <==> ext4.Pass?) && (r.Ok? ==> r.value == StorageChoice(mntBase, ModeExt4, Some(imgPath)))
    ensures hidden <==> r.Ok? && !disableUmount
    ensures erofsRemoved <==> r.Ok? && r.value.mode == ModeTmpfs && erofsImageExists
  {
    hidden, erofsRemoved := false, false;
    if useErofs && erofsSupported {
      var erofsPath := WithExtension(imgPath, "erofs");
      if !stagingMountOk {
        return Err("mount tmpfs failed"), hidden, erofsRemoved;
      }
      hidden := !disableUmount;
      return Ok(StorageChoice(mntBase, ModeErofsStaging, Some(erofsPath))), hidden, erofsRemoved;
    }
    if !forceExt4 {
      var tmpfs, _ := TrySetupTmpfs(tmpfsMountOk, xattrOk);
      if tmpfs.value {
        hidden := !disableUmount;
        erofsRemoved := erofsImageExists;
        return Ok(StorageChoice(mntBase, ModeTmpfs, None)), hidden, erofsRemoved;
      }
    }
    if ext4.Fail? {
      return Err(ext4.msg), hidden, erofsRemoved;
    }
    hidden := !disableUmount;
    r := Ok(StorageChoice(mntBase, ModeExt4, Some(imgPath)));
  }

  /** The modes `print_status` reports as supported: ext4 and erofs always,
      with tmpfs first when a test tmpfs mounts and supports extended
      attributes. */
  function SupportedModes(mountOk: bool, xattrOk: bool): (r: seq<string>)
    ensures |r| >= 2 && r[|r| - 2] == ModeExt4 && r[|r| - 1] == ModeErofs
    ensures |r| == 3 <==> mountOk && xattrOk
    ensures |r| == 3 ==> r[0] == ModeTmpfs
  {
    (if mountOk && xattrOk then [ModeTmpfs] else []) + [ModeExt4, ModeErofs]
  }
}
