/** The per-module file tree that magic mount builds, and how it is read from a
    module directory. */
module MountNode {
  import opened Wrappers

  datatype NodeFileType = RegularFile | Directory | Symlink | Whiteout

  /** What `std::fs::FileType` can report. */
  datatype FileKind = File | Dir | Link | CharDevice | BlockDevice | Fifo | Socket

  /** What the metadata of a directory entry says (`lstat`, symlinks not followed). */
  datatype Metadata = Metadata(kind: FileKind, rdev: nat)

  /** The facts `dir_is_replace` asks the kernel about one directory. */
  datatype ReplaceProbe = ReplaceProbe(
    opaqueXattr: Option<string>,  // `trusted.overlay.opaque`, decoded lossily
    pathIsText: bool,             // the path converts to a C string
    opens: bool,                  // `open(O_RDONLY | O_DIRECTORY)` succeeds
    hasReplaceFile: bool)         // `faccessat(".replace", F_OK)` succeeds

  /** A module directory entry as `read_dir` yields it, with the facts the scan
      reads about it; `entries` is its own listing when it is a readable
      directory. */
  datatype DirEntry = DirEntry(
    name: string,
    path: string,
    meta: Option<Metadata>,
    probe: ReplaceProbe,
    readable: bool,
    entries: seq<DirEntry>)

  datatype Node = Node(
    name: string,
    fileType: NodeFileType,
    children: map<string, Node>,
    modulePath: Option<string>,
    replace: bool,
    skip: bool)

  /** `NodeFileType::from_file_type`: files, directories and symlinks map to
      their node kinds; devices, fifos and sockets have none. */
  function FromFileType(kind: FileKind): (r: Option<NodeFileType>)
    ensures r == Some(RegularFile) <==> kind == File
    ensures r == Some(Directory) <==> kind == Dir
    ensures r == Some(Symlink) <==> kind == Link
    ensures r != Some(Whiteout)
  {
    match kind
    case File => Some(RegularFile)
    case Dir => Some(Directory)
    case Link => Some(Symlink)
    case _ => None
  }

  /** `Node::new_root`: an empty directory node that no module provides. */
  function NewRoot(name: string): (n: Node)
    ensures n.fileType == Directory && n.children == map[]
    ensures n.modulePath.None? && !n.replace && !n.skip && n.name == name
  {
    Node(name, Directory, map[], None, false, false)
  }

  /** `Node::dir_is_replace`: the opaque xattr is "y", or else a `.replace`
      entry exists in the directory. A path that is not a C string is an error. */
  function DirIsReplace(p: ReplaceProbe): (r: Result<bool>)
    ensures r == Ok(true) <==> p.opaqueXattr == Some("y") || (p.pathIsText && p.opens && p.hasReplaceFile)
    ensures r.Err? <==> p.opaqueXattr != Some("y") && !p.pathIsText
  {
    if p.opaqueXattr == Some("y") then Ok(true)
    else if !p.pathIsText then Err("path is not a C string")
    else if !p.opens then Ok(false)
    else Ok(p.hasReplaceFile)
  }

  predicate IsWhiteoutMeta(m: Metadata) {
    m.kind == CharDevice && m.rdev == 0
  }

  /** `Node::new_module`: a node for a module entry. A character device with
      device number 0 is a whiteout; other devices, fifos and sockets, and
      entries whose metadata cannot be read, give no node. Only a directory
      can be a replace directory, and a failing probe counts as "not replace". */
  function NewModule(name: string, e: DirEntry): (r: Option<Node>)
    ensures r.None? <==> e.meta.None? || (!IsWhiteoutMeta(e.meta.value) && FromFileType(e.meta.value.kind).None?)
    ensures r.Some? ==> (r.value.name == name && r.value.modulePath == Some(e.path)
                         && r.value.children == map[] && !r.value.skip)
    ensures r.Some? ==> (r.value.fileType == Whiteout <==> IsWhiteoutMeta(e.meta.value))
    ensures r.Some? ==> (r.value.replace <==> r.value.fileType == Directory && DirIsReplace(e.probe) == Ok(true))
  {
    if e.meta.None? then None
    else
      var ft := if IsWhiteoutMeta(e.meta.value) then Some(Whiteout) else FromFileType(e.meta.value.kind);
      if ft.None? then None
      else
        var replace := ft.value == Directory && DirIsReplace(e.probe).Ok? && DirIsReplace(e.probe).value;
        Some(Node(name, ft.value, map[], Some(e.path), replace, false))
  }

  // ---------------------------------------------------------------------------
  // collect_module_files

  /** One step of the scan: the entry's existing child is reused, or a new one is
      made; a directory child is filled from the entry's own listing. The flag
      says whether the child brings a file: a non-directory always does, a
      directory when its subtree does or it is a replace directory. */
  function CollectEntry(cur: Node, e: DirEntry): (r: (Node, bool))
    decreases e, 1
  {
    var child := if e.name in cur.children then Some(cur.children[e.name]) else NewModule(e.name, e);
    if child.None? then (cur, false)
    else if child.value.fileType == Directory then
      var sub := Collect(child.value, e, |e.entries|);
      (cur.(children := cur.children[e.name := sub.0]), sub.1 || sub.0.replace)
    else (cur.(children := cur.children[e.name := child.value]), true)
  }

  /** The scan of the first `k` entries of `dir` into `node`. */
  function Collect(node: Node, dir: DirEntry, k: nat): (r: (Node, bool))
    requires k <= |dir.entries|
    decreases dir, 0, k
  {
    if !dir.readable || k == 0 then (node, false)
    else
      var prev := Collect(node, dir, k - 1);
      var step := CollectEntry(prev.0, dir.entries[k - 1]);
      (step.0, prev.1 || step.1)
  }

  /** `Node::collect_module_files`: walks `dir`, adding a child per entry that
      is not already there and descending into directories. */
  method CollectModuleFiles(node: Node, dir: DirEntry) returns (r: Node, hasFile: bool)
    ensures (r, hasFile) == Collect(node, dir, |dir.entries|)
    decreases dir
  {
    r, hasFile := node, false;
    if !dir.readable {
      return;
    }
    var i := 0;
    while i < |dir.entries|
      invariant 0 <= i <= |dir.entries|
      invariant (r, hasFile) == Collect(node, dir, i)
    {
      var e := dir.entries[i];
      var child := if e.name in r.children then Some(r.children[e.name]) else NewModule(e.name, e);
      if child.Some? {
        var c := child.value;
        if c.fileType == Directory {
          var sub, subHas := CollectModuleFiles(c, e);
          r := r.(children := r.children[e.name := sub]);
          hasFile := hasFile || subHas || sub.replace;
        } else {
          r := r.(children := r.children[e.name := c]);
          hasFile := true;
        }
      }
      i := i + 1;
    }
  }

  /** The node's own fields other than its children. */
  predicate SameHead(a: Node, b: Node) {
    a.name == b.name && a.fileType == b.fileType && a.modulePath == b.modulePath
    && a.replace == b.replace && a.skip == b.skip
  }

  /** The scan never replaces an existing child: every child the node had is
      still there with its own name, type, module path and flags, and the node
      itself keeps its own. */
  lemma {:induction false} CollectKeepsExisting(node: Node, dir: DirEntry, k: nat)
    requires k <= |dir.entries|
    ensures var r := Collect(node, dir, k).0;
      SameHead(r, node)
      && node.children.Keys <= r.children.Keys
      && forall n :: n in node.children ==> SameHead(r.children[n], node.children[n])
    decreases dir, 0, k
  {
    if dir.readable && k > 0 {
      CollectKeepsExisting(node, dir, k - 1);
      CollectEntryKeepsExisting(Collect(node, dir, k - 1).0, dir.entries[k - 1]);
    }
  }

  lemma {:induction false} CollectEntryKeepsExisting(cur: Node, e: DirEntry)
    ensures var r := CollectEntry(cur, e).0;
      SameHead(r, cur)
      && cur.children.Keys <= r.children.Keys
      && forall n :: n in cur.children ==> SameHead(r.children[n], cur.children[n])
    decreases e, 1
  {
    var child := if e.name in cur.children then Some(cur.children[e.name]) else NewModule(e.name, e);
    if child.Some? {
      var c := child.value;
      var v := if c.fileType == Directory then Collect(c, e, |e.entries|).0 else c;
      if c.fileType == Directory {
        CollectKeepsExisting(c, e, |e.entries|);
      }
      var kids := cur.children[e.name := v];
      assert CollectEntry(cur, e).0 == cur.(children := kids);
      forall n | n in cur.children
        ensures SameHead(kids[n], cur.children[n])
      {
        if n == e.name {
          assert SameHead(v, c);
        }
      }
    }
  }

  /** Every child the scan adds comes from an entry of the directory and is
      the node `new_module` makes for it: same name, kind, flags and the
      entry's path; only its children come from the descent. */
  lemma {:induction false} CollectAddsModuleNodes(node: Node, dir: DirEntry, k: nat, n: string)
    requires k <= |dir.entries|
    requires n in Collect(node, dir, k).0.children && n !in node.children
    ensures exists j :: (0 <= j < k && dir.entries[j].name == n
                         && NewModule(n, dir.entries[j]).Some?
                         && Collect(node, dir, k).0.children[n].modulePath == Some(dir.entries[j].path)
                         && SameHead(Collect(node, dir, k).0.children[n], NewModule(n, dir.entries[j]).value))
    decreases k
  {
    var prev := Collect(node, dir, k - 1).0;
    var e := dir.entries[k - 1];
    CollectEntryKeepsExisting(prev, e);
    if n in prev.children {
      CollectAddsModuleNodes(node, dir, k - 1, n);
      var j :| 0 <= j < k - 1 && dir.entries[j].name == n
        && NewModule(n, dir.entries[j]).Some?
        && prev.children[n].modulePath == Some(dir.entries[j].path)
        && SameHead(prev.children[n], NewModule(n, dir.entries[j]).value);
      assert SameHead(Collect(node, dir, k).0.children[n], prev.children[n]);
    } else {
      var child := NewModule(e.name, e);
      assert e.name == n && child.Some?;
      if child.value.fileType == Directory {
        CollectKeepsExisting(child.value, e, |e.entries|);
      }
    }
  }
}
