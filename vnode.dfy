/** The abstract vnode's reference count (vfs/vnode.c): vnode_init,
  * vnode_cleanup, vnode_incref and vnode_decref. The file-system
  * operations, `fs` and `data` are opaque handles here. */
module Vnodes {
  import opened Common
  import opened RefCount

  class Vnode {
    var refcount: nat
    /** vn_ops, vn_fs and vn_data; None stands for NULL. */
    var ops: Option<nat>
    var fs: Option<nat>
    var data: Option<nat>
    /** Set by openfile_destroy before the vnode is closed: 1 when the
      * file was opened for reading. */
    var closingOp: int

    /** vnode_init on a fresh vnode: one reference, the given operations
      * (which must not be NULL), file system and data. */
    constructor Init(ops': nat, fs': Option<nat>, data': Option<nat>)
      ensures refcount == 1 && ops == Some(ops') && fs == fs' && data == data'
      ensures Run(refcount, []) == Alive(1)
    {
      refcount := 1;
      ops := Some(ops');
      fs := fs';
      data := data';
      closingOp := 0;
    }

    /** vnode_cleanup: only the last reference may be cleaned up; the count
      * drops to 0 and every handle to NULL. */
    method Cleanup()
      requires refcount == 1
      modifies this
      ensures refcount == 0 && ops.None? && fs.None? && data.None?
      ensures closingOp == old(closingOp)
    {
      ops := None;
      refcount := 0;
      fs := None;
      data := None;
    }

    /** vnode_incref: exactly one more reference, whatever the count was;
      * on a live vnode this is one Inc of the discipline. */
    method Incref()
      modifies this
      ensures old(refcount) > 0 ==> Run(old(refcount), [Inc]) == Alive(refcount)
      ensures refcount == old(refcount) + 1
      ensures ops == old(ops) && fs == old(fs) && data == old(data) && closingOp == old(closingOp)
    {
      refcount := refcount + 1;
    }

    /** vnode_decref: above 1 the count drops by one; at 1 it is kept and
      * the vnode handed to VOP_RECLAIM (`destroy`). `isConsole` says
      * whether the vnode is the one vfs_lookup finds for "console", which
      * is reclaimed once more before that, whatever its count.
      * `reclaims` is how many VOP_RECLAIM calls are made. */
    method Decref(isConsole: bool) returns (destroy: bool, reclaims: nat)
      requires refcount > 0
      modifies this
      ensures Run(old(refcount), [Dec]) == (if destroy then Reclaimed(0) else Alive(refcount))
      ensures destroy <==> old(refcount) == 1
      ensures refcount == (if destroy then old(refcount) else old(refcount) - 1)
      ensures reclaims == (if isConsole then 1 else 0) + (if destroy then 1 else 0)
      ensures ops == old(ops) && fs == old(fs) && data == old(data) && closingOp == old(closingOp)
    {
      if refcount > 1 {
        refcount := refcount - 1;
        destroy := false;
      } else {
        // the last reference goes to VOP_RECLAIM, undecremented
        destroy := true;
      }
      reclaims := 0;
      if isConsole {
        reclaims := reclaims + 1;
      }
      if destroy {
        reclaims := reclaims + 1;
      }
    }
  }
}
