/** The initial user stack SOS builds for a new process (main.c,
  * stack_write and init_process_stack): the argument count, empty argv
  * and envp arrays and the auxiliary vector, written downward from the
  * top of the stack page. */
module ProcStack {
  import opened Common

  /** Words in a 4 KiB stack page. */
  const STACK_WORDS := PAGE_SIZE / 8

  /** Auxiliary vector tags (System V ABI, "Process Initialization";
    * AT_SYSINFO as defined by the C library's elf.h). */
  const AT_NULL: Word := 0
  const AT_PAGESZ: Word := 6
  const AT_SYSINFO: Word := 32

  /** Where `mapped_stack[index]` lands in the page: `mapped_stack` points
    * one past the last word, so negative indices count down from the top. */
  function Slot(index: int): int
  {
    STACK_WORDS + index
  }

  /** The process-start stack of System V ABI "Process Initialization",
    * read upward from the stack pointer: argc, the argv pointers and
    * their NULL, the envp pointers and their NULL, then the auxiliary
    * vector as (tag, value) pairs closed by an AT_NULL pair. */
  function InitialStack(argv: seq<Word>, envp: seq<Word>, auxv: seq<(Word, Word)>): seq<Word>
    requires |argv| < WORD_MOD
  {
    [|argv| as Word] + argv + [0] + envp + [0] + Pairs(auxv) + [AT_NULL, 0]
  }

  function Pairs(auxv: seq<(Word, Word)>): seq<Word>
  {
    if auxv == [] then [] else [auxv[0].0, auxv[0].1] + Pairs(auxv[1..])
  }

  /** Pairs of two auxiliary entries, written out. */
  lemma PairsOfTwo(t0: Word, v0: Word, t1: Word, v1: Word)
    ensures Pairs([(t0, v0), (t1, v1)]) == [t0, v0, t1, v1]
  {
    assert [(t0, v0), (t1, v1)][1..] == [(t1, v1)];
    assert Pairs([(t1, v1)]) == [t1, v1] + Pairs([]);
  }

  /** `stack_top += index * sizeof(seL4_Word)`, in uintptr_t arithmetic. */
  function MoveTop(top: Word, index: int): Word
  {
    ((top + index * 8) % WORD_MOD) as Word
  }

  /** From a page-aligned stack top, ten words down is still a double-word
    * boundary. */
  lemma TopAligned(top: Word)
    requires top % PAGE_SIZE == 0 && PAGE_SIZE <= top
    ensures MoveTop(top, -10) == top - 80 && MoveTop(top, -10) % 16 == 0
  {
    var q := top / PAGE_SIZE;
    assert top - 80 == 16 * (256 * q - 5);
  }

  /** stack_write: one word at `index`, and the next index down. */
  method StackWrite(mappedStack: array<Word>, index: int, val: Word) returns (next: int)
    requires mappedStack.Length == STACK_WORDS && 0 <= Slot(index) && index < 0
    modifies mappedStack
    ensures mappedStack[Slot(index)] == val
    ensures forall k :: 0 <= k < STACK_WORDS && k != Slot(index) ==> mappedStack[k] == old(mappedStack[k])
    ensures next == index - 1
  {
    mappedStack[Slot(index)] := val;
    next := index - 1;
  }

  /** The aux-vector part of init_process_stack, on the SOS-side mapping
    * of the new stack page: 0 when no __vsyscall table was found (nothing
    * written), otherwise the initial stack pointer, `userStackTop` moved
    * down over the nine words written, double-word aligned as the two
    * assertions demand. */
  method InitProcessStack(mappedStack: array<Word>, lay: Layout, sysinfo: Word) returns (stackTop: Word)
    requires mappedStack.Length == STACK_WORDS && lay.Valid()
    modifies mappedStack
    ensures sysinfo == 0 ==> stackTop == 0 && mappedStack[..] == old(mappedStack[..])
    ensures sysinfo != 0 ==> (mappedStack[Slot(-10)..Slot(-1)]
      == InitialStack([], [], [(AT_SYSINFO, sysinfo), (AT_PAGESZ, PAGE_SIZE)]))
    ensures sysinfo != 0 ==> (
      forall k :: 0 <= k < STACK_WORDS && !(Slot(-10) <= k < Slot(-1)) ==> mappedStack[k] == old(mappedStack[k]))
    ensures sysinfo != 0 ==> stackTop == lay.userStackTop - 10 * 8 && stackTop % 16 == 0
  {
    if sysinfo == 0 {
      return 0;
    }
    var index := -2;
    // null terminate the aux vectors
    index := StackWrite(mappedStack, index, 0);
    index := StackWrite(mappedStack, index, 0);
    // the aux vectors
    index := StackWrite(mappedStack, index, PAGE_SIZE);
    index := StackWrite(mappedStack, index, AT_PAGESZ);
    index := StackWrite(mappedStack, index, sysinfo);
    index := StackWrite(mappedStack, index, AT_SYSINFO);
    // null terminate the environment and the argument pointers
    index := StackWrite(mappedStack, index, 0);
    index := StackWrite(mappedStack, index, 0);
    // argc; the returned index is dropped
    var _ := StackWrite(mappedStack, index, 0);
    PairsOfTwo(AT_SYSINFO, sysinfo, AT_PAGESZ, PAGE_SIZE);
    assert mappedStack[Slot(-10)..Slot(-1)] == [0, 0, 0, AT_SYSINFO, sysinfo, AT_PAGESZ, PAGE_SIZE, 0, 0];
    stackTop := MoveTop(lay.userStackTop, index);
    assert index % 2 == 0;
    TopAligned(lay.userStackTop);
  }
}
