/** Open-file objects (syscall/openfile.c): a vnode opened with an access
  * mode, a seek offset and a reference count, shared by the file-table
  * slots that hold it. */
module OpenFiles {
  import opened Common
  import opened RefCount
  import opened Vnodes

  /** The three access modes openfile_create accepts. */
  predicate ValidAccmode(accmode: bv32)
  {
    accmode == O_RDONLY || accmode == O_WRONLY || accmode == O_RDWR
  }

  /** The access mode an open asks for: the O_ACCMODE bits of its flags. */
  function AccmodeOf(openflags: bv32): (a: bv32)
    ensures a <= O_ACCMODE
    ensures a == O_ACCMODE || ValidAccmode(a)
  {
    openflags & O_ACCMODE
  }

  /** The `closing_op` openfile_destroy leaves on the vnode: 1 when the
    * file was open for reading (O_RDONLY or O_RDWR), 0 otherwise. */
  function ClosingOp(accmode: bv32): int
  {
    if accmode == O_RDONLY || accmode == O_RDWR then 1 else 0
  }

  /** For the modes a file can have, `closing_op` is 1 exactly when a
    * read on the file gets past the access check (its mode is not the
    * O_WRONLY that read refuses), and 0 exactly when only writes could. */
  lemma ClosingOpIsReadable(accmode: bv32)
    requires ValidAccmode(accmode)
    ensures ClosingOp(accmode) == 1 <==> accmode != O_WRONLY
    ensures ClosingOp(accmode) == 0 <==> accmode == O_WRONLY
  {
  }

  class OpenFile {
    var vnode: Vnode
    var accmode: bv32
    var offset: Word
    var refcount: nat

    /** The body of openfile_create once malloc has succeeded. */
    constructor Init(vn: Vnode, accmode': bv32)
      requires ValidAccmode(accmode')
      ensures vnode == vn && accmode == accmode' && offset == 0 && refcount == 1
    {
      vnode := vn;
      accmode := accmode';
      offset := 0;
      refcount := 1;
    }

    /** openfile_incref: exactly one more reference, whatever the count
      * was; on a live file this is one Inc of the discipline. */
    method Incref()
      modifies this
      ensures old(refcount) > 0 ==> Run(old(refcount), [Inc]) == Alive(refcount)
      ensures refcount == old(refcount) + 1
      ensures vnode == old(vnode) && accmode == old(accmode) && offset == old(offset)
    {
      refcount := refcount + 1;
    }

    /** openfile_destroy: records on the vnode whether the file was open
      * for reading, then hands the vnode to vfs_close (`closed`). */
    method Destroy() returns (closed: Vnode)
      modifies vnode
      ensures closed == vnode
      ensures vnode.closingOp == ClosingOp(accmode)
      ensures vnode.refcount == old(vnode.refcount) && vnode.ops == old(vnode.ops)
      ensures vnode.fs == old(vnode.fs) && vnode.data == old(vnode.data)
    {
      var v := vnode;
      if accmode == O_RDONLY || accmode == O_RDWR {
        v.closingOp := 1;
      } else {
        v.closingOp := 0;
      }
      closed := vnode;
    }

    /** openfile_decref: the last reference destroys the file (and closes
      * its vnode); any other drops the count by one. A count of 0 fails
      * the source's assertion, so it is excluded. */
    method Decref() returns (closed: Option<Vnode>)
      requires refcount > 0
      modifies this, vnode
      ensures Run(old(refcount), [Dec]) == (if closed.Some? then Reclaimed(0) else Alive(refcount))
      ensures closed.Some? <==> old(refcount) == 1
      ensures closed.Some? ==> closed.value == vnode && vnode.closingOp == ClosingOp(accmode)
      ensures closed.None? ==> refcount == old(refcount) - 1 && vnode.closingOp == old(vnode.closingOp)
      ensures vnode == old(vnode) && accmode == old(accmode) && offset == old(offset)
      ensures vnode.refcount == old(vnode.refcount) && vnode.ops == old(vnode.ops)
    {
      if refcount == 1 {
        var v := Destroy();
        closed := Some(v);
      } else {
        refcount := refcount - 1;
        closed := None;
      }
    }
  }

  /** openfile_create: None when malloc fails (`mallocOk` false). */
  method Create(vn: Vnode, accmode: bv32, mallocOk: bool) returns (file: Option<OpenFile>)
    requires ValidAccmode(accmode)
    ensures file.Some? <==> mallocOk
    ensures file.Some? ==> fresh(file.value) && file.value.vnode == vn && file.value.accmode == accmode
    ensures file.Some? ==> file.value.offset == 0 && file.value.refcount == 1
  {
    if !mallocOk {
      return None;
    }
    var f := new OpenFile.Init(vn, accmode);
    file := Some(f);
  }

  /** openfile_open, given what vfs_open did (`vfsResult`, and the vnode
    * `vn` it opened when that is 0) and whether malloc succeeds. An error
    * from vfs_open is passed on; a failed allocation closes the vnode
    * again (`closed`) and gives ENOMEM; otherwise the new file holds the
    * vnode with the access mode of the flags. vfs_open is relied on to
    * refuse an access mode of 3, which openfile_create asserts against. */
  method Open(vfsResult: int, vn: Vnode, openflags: bv32, mallocOk: bool)
    returns (result: int, file: Option<OpenFile>, closed: Option<Vnode>)
    requires vfsResult == 0 ==> AccmodeOf(openflags) != O_ACCMODE
    ensures result == 0 <==> file.Some?
    ensures vfsResult != 0 ==> result == vfsResult && closed.None?
    ensures vfsResult == 0 && !mallocOk ==> result == ENOMEM && closed == Some(vn)
    ensures vfsResult == 0 && mallocOk ==> result == 0 && closed.None?
    ensures file.Some? ==> fresh(file.value) && file.value.vnode == vn && file.value.refcount == 1
    ensures file.Some? ==> file.value.accmode == AccmodeOf(openflags) && file.value.offset == 0
  {
    if vfsResult != 0 {
      return vfsResult, None, None;
    }
    file := Create(vn, AccmodeOf(openflags), mallocOk);
    if file.None? {
      return ENOMEM, None, Some(vn);
    }
    result, closed := 0, None;
  }
}
