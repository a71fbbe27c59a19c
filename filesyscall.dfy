/** The file system calls of syscall/filesyscall.c: the shared read/write
  * path, the flag check of open, the address check of read and write, and
  * close. The per-process file table is a sequence of slots; the vnode
  * operations are given by their outcome. */
module FileSyscall {
  import opened Common
  import opened RefCount
  import opened Vnodes
  import opened OpenFiles
  import opened Uio

  /** A system-call reply: the value and the error word. */
  datatype Reply = Reply(value: int, err: int)

  /** The slots of a process's open-file table; None is an empty slot. */
  class FileTable {
    var slots: seq<Option<OpenFile>>

    constructor (n: nat)
      ensures slots == seq(n, _ => None)
    {
      slots := seq(n, _ => None);
    }

    /** filetable_okfd: `fd` names a slot of the table. */
    predicate OkFd(fd: int)
      reads this
    {
      0 <= fd < |slots|
    }

    /** What filetable_get finds at `fd`: None when `fd` is out of range
      * or its slot is empty, which it reports as EBADF. */
    function Get(fd: int): (r: Option<OpenFile>)
      reads this
      ensures r.Some? <==> OkFd(fd) && slots[fd].Some?
      ensures r.Some? ==> r == slots[fd]
    {
      if OkFd(fd) then slots[fd] else None
    }

    /** The file at `fd` as a set, empty when there is none. */
    function Held(fd: int): set<OpenFile>
      reads this
    {
      if Get(fd).Some? then {Get(fd).value} else {}
    }
  }

  /** `(int)fd`: a descriptor passed as a machine word keeps its low 32
    * bits, read as a two's-complement int. */
  function FdOf(w: Word): (fd: int)
    ensures -0x8000_0000 <= fd < 0x8000_0000
    ensures fd % U32_MOD == w % U32_MOD
  {
    var low := w % U32_MOD;
    if low >= 0x8000_0000 then low - U32_MOD else low
  }

  /** Small descriptors pass through the cast unchanged; a word differing
    * from a valid descriptor only above bit 31 names the same slot. */
  lemma FdOfSmall(w: Word, k: nat)
    requires w < 0x8000_0000
    ensures FdOf(w) == w
    ensures w + k * U32_MOD < WORD_MOD ==> FdOf(w + k * U32_MOD) == w
  {
    if w + k * U32_MOD < WORD_MOD {
      assert (w + k * U32_MOD) % U32_MOD == w;
    }
  }

  /** What VOP_READ or VOP_WRITE did with the uio it was given: its error
    * and the uio's residual count and offset afterwards. */
  datatype VopOutcome = VopOutcome(err: int, resid: Word, offset: Word)

  /** The offset a transfer starts at: the file's own for a seekable
    * vnode, 0 for any other. */
  function StartPos(seekable: bool, offset: Word): Word
  {
    if seekable then offset else 0
  }

  /** The result of _sys_readwrite and the file's offset after it: the
    * error (0 on success), the byte count `size - uio_resid` in size_t
    * arithmetic, and the new offset. */
  datatype RwResult = RwResult(result: int, retval: Word, offset: Word)

  /** _sys_readwrite on a file of mode `accmode` at `offset`: EBADF when
    * the mode is `badaccmode`, the VOP's error when it fails, else the
    * bytes moved; only a seekable file's offset follows the uio. */
  function ReadWriteResult(accmode: bv32, offset: Word, size: Word, badaccmode: bv32, seekable: bool,
                           vop: Word -> VopOutcome): RwResult
  {
    if accmode == badaccmode then RwResult(EBADF, 0, offset)
    else
      var o := vop(StartPos(seekable, offset));
      if o.err != 0 then RwResult(o.err, 0, offset)
      else RwResult(0, (size - o.resid) % WORD_MOD, if seekable then o.offset else offset)
  }

  /** A read (refused on O_WRONLY) or write (refused on O_RDONLY) fails
    * exactly on the refused mode or a VOP error; a failure leaves the
    * offset alone; a success counts the bytes the VOP took off the uio
    * and moves a seekable file's offset to the uio's, while a
    * non-seekable file is always read at 0 and keeps its offset. */
  lemma ReadWriteResultMeaning(accmode: bv32, offset: Word, size: Word, badaccmode: bv32, seekable: bool,
                               vop: Word -> VopOutcome)
    ensures var r := ReadWriteResult(accmode, offset, size, badaccmode, seekable, vop);
      (r.result == 0 <==> accmode != badaccmode && vop(StartPos(seekable, offset)).err == 0) &&
      (accmode == badaccmode ==> r.result == EBADF) &&
      (r.result != 0 ==> r.offset == offset) &&
      (r.result == 0 && vop(StartPos(seekable, offset)).resid <= size ==>
        r.retval == size - vop(StartPos(seekable, offset)).resid && r.retval <= size) &&
      (r.result == 0 ==> r.offset == (if seekable then vop(offset).offset else offset)) &&
      (!seekable ==> r.offset == offset)
  {
  }

  /** _sys_readwrite: filetable_get's EBADF for a bad descriptor, then the
    * access check, the transfer and the offset update on `file`. */
  method ReadWrite(ft: FileTable, proc: nat, fd: int, buf: Word, size: Word, rw: Direction, badaccmode: bv32,
                   seekable: bool, vop: Word -> VopOutcome)
    returns (result: int, retval: Word)
    modifies ft.Held(fd)
    ensures ft.slots == old(ft.slots)
    ensures ft.Get(fd).None? ==> result == EBADF
    ensures ft.Get(fd).Some? ==>
      var f := ft.Get(fd).value;
      var r := ReadWriteResult(f.accmode, old(f.offset), size, badaccmode, seekable, vop);
      result == r.result && f.offset == r.offset && (r.result == 0 ==> retval == r.retval) &&
      f.accmode == old(f.accmode) && f.refcount == old(f.refcount) && f.vnode == old(f.vnode)
  {
    var file := ft.Get(fd);
    if file.None? {
      return EBADF, 0;
    }
    var f := file.value;
    var pos := if seekable then f.offset else 0;
    if f.accmode == badaccmode {
      // filetable_put and fail
      return EBADF, 0;
    }
    var u := new UioRecord();
    u.UInit(buf, size, pos, rw, Some(proc));
    var o := vop(u.offset);
    if o.err != 0 {
      return o.err, 0;
    }
    if seekable {
      f.offset := o.offset;
    }
    result, retval := 0, (size - o.resid) % WORD_MOD;
  }

  /** The reply of read and write: EFAULT when the buffer fails
    * validate_virtual_address and also for every error of the transfer,
    * else the byte count. */
  function RwReply(valid: bool, result: int, retval: Word): (reply: Reply)
  {
    if !valid || result != 0 then Reply(0, EFAULT) else Reply(retval, 0)
  }

  /** Read and write reply with no error exactly when the buffer is valid
    * and the transfer succeeded; every failure, EBADF included, reaches
    * the caller as EFAULT. */
  lemma RwReplyErrors(valid: bool, result: int, retval: Word)
    ensures RwReply(valid, result, retval).err == 0 <==> valid && result == 0
    ensures RwReply(valid, result, retval).err != 0 ==> RwReply(valid, result, retval) == Reply(0, EFAULT)
    ensures RwReply(valid, result, retval).err == 0 ==> RwReply(valid, result, retval).value == retval
  {
  }

  /** The access mode each direction refuses: O_WRONLY for a read,
    * O_RDONLY for a write. */
  function BadAccmode(rw: Direction): bv32
  {
    if rw == UioRead then O_WRONLY else O_RDONLY
  }

  /** _sys_read (UioRead) and _sys_write (UioWrite) for process `proc`,
    * descriptor word `fd` and a buffer at `vaddr` that
    * validate_virtual_address judged `valid`: an invalid buffer is
    * refused before the file table is looked at. */
  method SysReadWrite(ft: FileTable, proc: nat, fd: Word, vaddr: Word, length: Word, valid: bool, rw: Direction,
                      seekable: bool, vop: Word -> VopOutcome)
    returns (reply: Reply)
    modifies ft.Held(FdOf(fd))
    ensures ft.slots == old(ft.slots)
    ensures !valid ==> reply == Reply(0, EFAULT)
    ensures !valid && ft.Get(FdOf(fd)).Some? ==> ft.Get(FdOf(fd)).value.offset == old(ft.Get(FdOf(fd)).value.offset)
    ensures valid && ft.Get(FdOf(fd)).None? ==> reply == Reply(0, EFAULT)
    ensures valid && ft.Get(FdOf(fd)).Some? ==>
      var f := ft.Get(FdOf(fd)).value;
      var r := ReadWriteResult(f.accmode, old(f.offset), length, BadAccmode(rw), seekable, vop);
      reply == RwReply(true, r.result, r.retval) && f.offset == r.offset
  {
    if !valid {
      return Reply(0, EFAULT);
    }
    var result, ret := ReadWrite(ft, proc, FdOf(fd), vaddr, length, rw, BadAccmode(rw), seekable, vop);
    reply := RwReply(true, result, ret);
  }

  /** The flags _sys_open accepts: the access mode bits, O_CREAT, O_EXCL,
    * O_TRUNC, O_APPEND and O_NOCTTY. */
  const ALL_FLAGS: bv64 := (O_ACCMODE | O_CREAT | O_EXCL | O_TRUNC | O_APPEND | O_NOCTTY) as bv64

  /** The flag check of _sys_open: no flag outside ALL_FLAGS. */
  predicate OpenFlagsOk(openflags: bv64)
  {
    openflags & ALL_FLAGS == openflags
  }

  /** Accepted flags are exactly those with no bit outside ALL_FLAGS; they
    * are all below 0x800 and include every access mode, 3 as well. */
  lemma OpenFlagsOkMeaning(openflags: bv64)
    ensures OpenFlagsOk(openflags) <==> openflags & !ALL_FLAGS == 0
    ensures OpenFlagsOk(openflags) ==> openflags < 0x800
    ensures openflags < 4 ==> OpenFlagsOk(openflags)
  {
  }

  /** NAME_MAX of the C library's limits.h. */
  const NAME_MAX: nat := 255

  /** _sys_open's reply for flags `openflags`, the copystr result
    * `pathLength` of copying the path in with bound NAME_MAX + 1, and
    * the result `fd` of _sys_do_open: -1 with error word -1 when the
    * flags are refused, the path did not fit or the open failed, else the
    * new descriptor. */
  function OpenReply(openflags: bv64, pathLength: int, fd: int): (reply: Reply)
  {
    if !OpenFlagsOk(openflags) || pathLength == -1 || fd < 0 then Reply(-1, -1) else Reply(fd, 0)
  }

  /** open succeeds exactly when all three steps do, and then replies
    * with the descriptor; unknown flags fail it whatever the path. */
  lemma OpenReplyMeaning(openflags: bv64, pathLength: int, fd: int)
    ensures OpenReply(openflags, pathLength, fd).err == 0 <==>
      OpenFlagsOk(openflags) && pathLength != -1 && fd >= 0
    ensures OpenReply(openflags, pathLength, fd).err == 0 ==> OpenReply(openflags, pathLength, fd).value == fd
    ensures OpenReply(openflags, pathLength, fd).err != 0 ==> OpenReply(openflags, pathLength, fd) == Reply(-1, -1)
  {
  }

  /** The files a close may touch: the one in slot `fd` and its vnode. */
  function CloseFrame(ft: FileTable, fd: int): set<object>
    reads ft, ft.Held(fd)
  {
    match ft.Get(fd)
      case None => {}
      case Some(f) => {f as object, f.vnode}
  }

  /** _sys_close: EBADF for a descriptor outside the table, which is
    * left alone; otherwise the slot is emptied (filetable_placeat with
    * NULL), EBADF again if it was empty, and else one reference of the
    * file it held is dropped and 0 is replied. `closed` is the vnode
    * handed to vfs_close when that was the file's last reference. */
  method SysClose(ft: FileTable, fd: Word) returns (reply: Reply, closed: Option<Vnode>)
    requires ft.Get(FdOf(fd)).Some? ==> ft.Get(FdOf(fd)).value.refcount > 0
    modifies ft, CloseFrame(ft, FdOf(fd))
    ensures !old(ft.OkFd(FdOf(fd))) ==> reply == Reply(-1, EBADF) && ft.slots == old(ft.slots) && closed.None?
    ensures old(ft.OkFd(FdOf(fd))) ==> ft.slots == old(ft.slots)[FdOf(fd) := None]
    ensures old(ft.Get(FdOf(fd))).None? ==> reply == Reply(-1, EBADF) && closed.None?
    ensures old(ft.Get(FdOf(fd))).Some? ==>
      var f := old(ft.Get(FdOf(fd))).value;
      reply == Reply(0, 0) &&
      Run(old(f.refcount), [Dec]) == (if closed.Some? then Reclaimed(0) else Alive(f.refcount)) &&
      (closed.Some? ==> closed.value == f.vnode && f.vnode.closingOp == ClosingOp(f.accmode)) &&
      f.vnode == old(f.vnode) && f.offset == old(f.offset)
  {
    var n := FdOf(fd);
    if !ft.OkFd(n) {
      return Reply(-1, EBADF), None;
    }
    var file := ft.slots[n];
    ft.slots := ft.slots[n := None];
    if file.None? {
      return Reply(-1, EBADF), None;
    }
    closed := file.value.Decref();
    reply := Reply(0, 0);
  }
}
