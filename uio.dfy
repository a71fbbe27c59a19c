/** Transfers between SOS and a user buffer (vfs/uio.c): the uio record a
  * read or write is described by, and copystr, the bounded copy of a
  * NUL-terminated string across the user boundary. */
module Uio {
  import opened Common
  import opened AddrSpace

  /** enum uio_rw. COPYOUT is UIO_READ (SOS to user), COPYIN is UIO_WRITE
    * (user to SOS). */
  datatype Direction = UioRead | UioWrite

  /** Which address space the uio's buffer lives in. */
  datatype SegFlag = UserSpace | SysSpace

  /** struct uio; `proc` is the owning process, None for NULL. */
  class UioRecord {
    var vaddr: Word
    var length: Word
    var offset: Word
    var resid: Word
    var rw: Direction
    var segflg: SegFlag
    var proc: Option<nat>

    constructor ()
      ensures resid == 0 && length == 0
    {
      vaddr, length, offset, resid := 0, 0, 0, 0;
      rw, segflg, proc := UioRead, SysSpace, None;
    }

    /** The bytes moved so far. */
    function Transferred(): int
      reads this
    {
      length - resid
    }

    /** uio_uinit: a transfer of `len` bytes at `pos` for a user buffer of
      * `proc`; nothing moved yet. */
    method UInit(vaddr': Word, len: Word, pos: Word, rw': Direction, proc': Option<nat>)
      modifies this
      ensures vaddr == vaddr' && length == len && resid == len && offset == pos
      ensures rw == rw' && segflg == UserSpace && proc == proc'
      ensures Transferred() == 0
    {
      vaddr := vaddr';
      length := len;
      offset := pos;
      resid := len;
      rw := rw';
      segflg := UserSpace;
      proc := proc';
    }

    /** uio_kinit: the same for a buffer inside SOS, with no process. */
    method KInit(vaddr': Word, len: Word, pos: Word, rw': Direction)
      modifies this
      ensures vaddr == vaddr' && length == len && resid == len && offset == pos
      ensures rw == rw' && segflg == SysSpace && proc.None?
      ensures Transferred() == 0
    {
      vaddr := vaddr';
      length := len;
      offset := pos;
      resid := len;
      rw := rw';
      segflg := SysSpace;
      proc := None;
    }
  }

  /** The index of the first NUL byte of `s`, if any. */
  function FirstNul(s: seq<bv8>): (r: Option<nat>)
    ensures r.Some? ==> r.value < |s|
  {
    if s == [] then None
    else if s[0] == 0 then Some(0)
    else match FirstNul(s[1..])
      case None => None
      case Some(k) => Some(k + 1)
  }

  /** FirstNul finds the first NUL, and finds nothing only in a string
    * without one. */
  lemma {:induction false} FirstNulIsFirst(s: seq<bv8>)
    ensures FirstNul(s).Some? ==> s[FirstNul(s).value] == 0 && forall i :: 0 <= i < FirstNul(s).value ==> s[i] != 0
    ensures FirstNul(s).None? <==> forall i :: 0 <= i < |s| ==> s[i] != 0
  {
    if s != [] && s[0] != 0 {
      FirstNulIsFirst(s[1..]);
      assert forall i :: 1 <= i < |s| ==> s[i] == s[1..][i - 1];
    }
  }

  /** What copystr returns for a source `src` and a copy bound: the length
    * of the string when a NUL comes within the bound, -1 when the bound
    * is reached first, and 0 when the bound is 0 (no byte copied). */
  function CopyResult(src: seq<bv8>, bound: nat): int
    requires bound <= |src|
  {
    if bound == 0 then 0
    else match FirstNul(src[..bound])
      case Some(k) => k
      case None => -1
  }

  /** How many bytes copystr copies: the string and its NUL, or the whole
    * bound when no NUL comes within it. */
  function CopiedCount(src: seq<bv8>, bound: nat): (k: nat)
    requires bound <= |src|
    ensures k <= bound
  {
    match FirstNul(src[..bound])
      case Some(k) => k + 1
      case None => bound
  }

  /** The destination after a copy: the copied bytes of `src` over the
    * start of `dst`. */
  function Spliced(src: seq<bv8>, dst: seq<bv8>, bound: nat): seq<bv8>
    requires bound <= |src| && bound <= |dst|
  {
    src[..CopiedCount(src, bound)] + dst[CopiedCount(src, bound)..]
  }

  /** A successful copy returns the string length: the bytes before it
    * are not NUL, the byte at it is, and it is the last byte copied. A
    * failed copy (-1) filled the whole bound without meeting a NUL. */
  lemma CopyResultMeaning(src: seq<bv8>, bound: nat)
    requires 0 < bound <= |src|
    ensures CopyResult(src, bound) >= 0 ==>
      src[CopyResult(src, bound)] == 0 && CopiedCount(src, bound) == CopyResult(src, bound) + 1 &&
      forall i :: 0 <= i < CopyResult(src, bound) ==> src[i] != 0
    ensures CopyResult(src, bound) == -1 <==>
      CopiedCount(src, bound) == bound && forall i :: 0 <= i < bound ==> src[i] != 0
  {
    FirstNulIsFirst(src[..bound]);
    assert forall i :: 0 <= i < bound ==> src[..bound][i] == src[i];
  }

  /** The smaller of two integers: copystr's loop runs while `i` is below
    * both `left_size` and `length`. */
  function Min(a: int, b: int): int
  {
    if a <= b then a else b
  }

  /** `left_size` as written: `region->vaddr + region->size -
    * region->vaddr`, which is the region's whole size whatever `user` is. */
  function LeftSizeAsWritten(region: Region, user: Word): int
  {
    region.vaddr + region.size - region.vaddr
  }

  /** The bound as written lets a copy that starts near the end of a
    * region run past it: one byte before the end of a one-page region,
    * 256 bytes may be copied. */
  lemma LeftSizeAsWrittenOverruns()
    ensures var region := Region(0, 0x1000, 0x1000, 1, 0);
      var bound := Min(LeftSizeAsWritten(region, 0x1FFF), 256);
      0x1FFF + bound > region.End()
  {
  }

  /** `left_size` as intended: the bytes of the region from `user` on. */
  function LeftSize(region: Region, user: Word): int
  {
    region.vaddr + region.size - user
  }

  /** With the intended bound every byte copied lies inside the region. */
  lemma LeftSizeStaysInRegion(region: Region, user: Word, length: nat, i: nat)
    requires region.vaddr <= user < region.End()
    requires i < LeftSize(region, user) && i < length
    ensures region.vaddr <= user + i < region.End()
  {
  }

  /** copystr for the region `region` that vaddr_get_region found for
    * `user` (None when there is none). `userMem` holds the user bytes from
    * `user` to the end of that region, as get_sos_virtual_address reaches
    * them page by page; `sos` is the SOS-side buffer. COPYIN copies user
    * bytes into `sos`, COPYOUT the other way; the copy stops after the
    * first NUL or at the bound, the smaller of `length` and the bytes left
    * in the region. */
  method CopyStr(region: Option<Region>, user: Word, userMem: array<bv8>, sos: array<bv8>, length: nat, rw: Direction)
    returns (r: int)
    requires region.Some? ==> region.value.vaddr <= user < region.value.End()
    requires region.Some? ==> userMem.Length == LeftSize(region.value, user)
    requires length <= sos.Length && userMem != sos
    modifies userMem, sos
    ensures region.None? ==> r == -1 && userMem[..] == old(userMem[..]) && sos[..] == old(sos[..])
    ensures region.Some? ==>
      var bound := Min(LeftSize(region.value, user), length);
      var src := if rw == UioWrite then old(userMem[..]) else old(sos[..]);
      r == CopyResult(src, bound) &&
      (rw == UioWrite ==> sos[..] == Spliced(src, old(sos[..]), bound) && userMem[..] == old(userMem[..])) &&
      (rw == UioRead ==> userMem[..] == Spliced(src, old(userMem[..]), bound) && sos[..] == old(sos[..]))
  {
    if region.None? {
      return -1;
    }
    var leftSize := LeftSize(region.value, user);
    // COPYIN reads the user buffer into `sos`, COPYOUT the other way
    if rw == UioWrite {
      r := CopyLoop(userMem, sos, leftSize, length);
    } else {
      r := CopyLoop(sos, userMem, leftSize, length);
    }
  }

  /** The loop of copystr, from `from` into `to`, while `i` is below both
    * `leftSize` and `length`. */
  method CopyLoop(from: array<bv8>, to: array<bv8>, leftSize: nat, length: nat) returns (r: int)
    requires from != to && Min(leftSize, length) <= from.Length && Min(leftSize, length) <= to.Length
    modifies to
    ensures r == CopyResult(old(from[..]), Min(leftSize, length))
    ensures to[..] == Spliced(old(from[..]), old(to[..]), Min(leftSize, length))
  {
    ghost var bound := Min(leftSize, length);
    ghost var src := from[..];
    ghost var dst0 := to[..];
    var i := 0;
    var c: bv8 := 0;
    while i < leftSize && i < length
      invariant i <= bound && FirstNul(src[..i]).None?
      invariant i > 0 ==> c == src[i - 1]
      invariant i == 0 ==> c == 0
      invariant to[..] == src[..i] + dst0[i..] && from[..] == src
    {
      c := from[i];
      Splice(src, dst0, i);
      to[i] := c;
      CopyStep(src, bound, i);
      if c == 0 {
        return i;
      }
      i := i + 1;
    }
    FirstNulIsFirst(src[..i]);
    if c != 0 {
      return -1;
    }
    return i;
  }

  /** Copying byte `i` extends the copied prefix by one. */
  lemma Splice(src: seq<bv8>, dst: seq<bv8>, i: nat)
    requires i < |src| && i < |dst|
    ensures (src[..i] + dst[i..])[i := src[i]] == src[..i + 1] + dst[i + 1..]
  {
    var a := (src[..i] + dst[i..])[i := src[i]];
    var b := src[..i + 1] + dst[i + 1..];
    assert |a| == |b|;
    forall j | 0 <= j < |a|
      ensures a[j] == b[j]
    {
    }
  }

  /** One byte further into the source: the first NUL is either here or
    * still ahead. */
  lemma CopyStep(src: seq<bv8>, bound: nat, i: nat)
    requires i < bound <= |src| && FirstNul(src[..i]).None?
    ensures src[i] == 0 ==> FirstNul(src[..bound]) == Some(i)
    ensures src[i] != 0 ==> FirstNul(src[..i + 1]).None?
  {
    FirstNulIsFirst(src[..i]);
    FirstNulIsFirst(src[..i + 1]);
    FirstNulIsFirst(src[..bound]);
    assert forall j :: 0 <= j < i ==> src[..i][j] == src[j] && src[..bound][j] == src[j];
    assert forall j :: 0 <= j <= i ==> src[..i + 1][j] == src[j];
    if src[i] == 0 {
      FirstNulPrefix(src[..bound], i);
    }
  }

  /** A NUL at `i` with none before it is the first one. */
  lemma {:induction false} FirstNulPrefix(s: seq<bv8>, i: nat)
    requires i < |s| && s[i] == 0 && forall j :: 0 <= j < i ==> s[j] != 0
    ensures FirstNul(s) == Some(i)
  {
    if i > 0 {
      assert forall j :: 0 <= j < i - 1 ==> s[1..][j] == s[j + 1];
      FirstNulPrefix(s[1..], i - 1);
    }
  }
}
