/** Shared vocabulary of the SOS model: optional values, machine words,
  * pages, seL4 error codes and the virtual-memory layout constants. */
module Common {

  datatype Option<T> = None | Some(value: T)

  /** Unsigned machine words of aarch64 (seL4_Word, size_t, uintptr_t). */
  const WORD_MOD: int := 0x1_0000_0000_0000_0000
  type Word = x: int | 0 <= x < 0x1_0000_0000_0000_0000

  /** C `unsigned` and `uint32_t`. */
  const U32_MOD: int := 0x1_0000_0000

  const PAGE_SIZE: nat := 4096

  /** PAGE_FRAME (0xfffffffffffff000): clears the offset inside a page. */
  function PageAlign(v: Word): (r: Word)
    ensures r % PAGE_SIZE == 0 && r <= v && v - r < PAGE_SIZE
  {
    v - v % PAGE_SIZE
  }

  /** The contents of one 4 KiB frame. */
  type Page = p: seq<bv8> | |p| == PAGE_SIZE witness ZeroPage()

  function ZeroPage(): (p: seq<bv8>)
    ensures |p| == PAGE_SIZE && forall i :: 0 <= i < |p| ==> p[i] == 0
  {
    seq(PAGE_SIZE, _ => 0)
  }

  /** The rights a page is mapped with, in the order of the
    * seL4_CapRights_new arguments (grant, read, write). */
  datatype Rights = Rights(grant: bool, read: bool, write: bool)

  /** seL4_AllRights. */
  const ALL_RIGHTS := Rights(true, true, true)

  /** seL4_Error values used by the server (the enum of libsel4). */
  const SEL4_NO_ERROR: int := 0
  const SEL4_INVALID_ARGUMENT: int := 1
  const SEL4_FAILED_LOOKUP: int := 6
  const SEL4_NOT_ENOUGH_MEMORY: int := 10

  /** open(2) flags, as the C library (musl, aarch64) numbers them. */
  const O_RDONLY: bv32 := 0
  const O_WRONLY: bv32 := 1
  const O_RDWR: bv32 := 2
  const O_ACCMODE: bv32 := 3
  const O_CREAT: bv32 := 0x40
  const O_EXCL: bv32 := 0x80
  const O_NOCTTY: bv32 := 0x100
  const O_TRUNC: bv32 := 0x200
  const O_APPEND: bv32 := 0x400

  /** errno values the file system calls return. */
  const EBADF: int := 9
  const ENOMEM: int := 12
  const EFAULT: int := 14

  /** The constants of vmem_layout.h and the region permission bits,
    * which are fixed when the server is built. */
  datatype Layout = Layout(
    userStackTop: Word,
    userStackSize: Word,
    userHeapSize: Word,
    userIpcBuffer: Word,
    userSpaceTop: Word,
    rgR: bv32, rgW: bv32, rgX: bv32)
  {
    /** What the layout header guarantees: page-aligned stack and IPC
      * buffer below the top of user space, heap below the stack. */
    predicate Valid() {
      userStackTop % PAGE_SIZE == 0 && userStackSize % PAGE_SIZE == 0 &&
      userIpcBuffer % PAGE_SIZE == 0 &&
      userHeapSize + userStackSize <= userStackTop <= userSpaceTop &&
      userIpcBuffer + PAGE_SIZE <= userSpaceTop &&
      PAGE_SIZE <= userStackSize
    }
  }
}
