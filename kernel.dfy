/** Outcomes of the mount system calls, given rather than performed. Each one
    is keyed by the path it acts on. */
module MountKernel {
  datatype Kernel = Kernel(
    fsopenMount: string -> bool,  // fsopen, fsconfig, fsmount and move_mount onto the destination
    legacyMount: string -> bool,  // mount(2) of an overlay with an option string onto the destination
    openTree: string -> bool,     // open_tree(OPEN_TREE_CLONE | AT_RECURSIVE) of the source
    moveMount: string -> bool,    // move_mount of a cloned tree onto the destination
    bindMount: string -> bool,    // mount(2) with MS_BIND | MS_REC onto the destination
    unmount: string -> bool)      // umount2 with MNT_DETACH
}
