/** The memory system calls (brk, mmap, munmap) and the FIFO queue of
  * coroutines that the syscall loop resumes. */
module Syscall {
  import opened Common
  import opened AddrSpace

  /** The word a system call replies with, or Fault where the server
    * would dereference a NULL or freed region pointer. */
  datatype Reply = Reply(ret: Word) | Fault

  // ---------------------------------------------------------------
  // Coroutine queue
  // ---------------------------------------------------------------

  /** The index of the first resumable entry of q, |q| when none is. */
  function FirstResumable(q: seq<nat>, resumable: nat -> bool): (k: nat)
    ensures k <= |q|
    ensures k < |q| ==> resumable(q[k])
    ensures forall j :: 0 <= j < k ==> !resumable(q[j])
  {
    if |q| == 0 then 0
    else if resumable(q[0]) then 0
    else
      assert forall j :: 1 <= j < |q| ==> q[1..][j - 1] == q[j];
      1 + FirstResumable(q[1..], resumable)
  }

  /** One round of run_coroutine on queue q: entries that are no longer
    * resumable are dropped from the front until the first resumable one,
    * which moves to the tail and is the one resumed. */
  function RunOnce(q: seq<nat>, resumable: nat -> bool): (r: (seq<nat>, Option<nat>))
    ensures r.1.None? <==> FirstResumable(q, resumable) == |q|
    ensures r.1.None? ==> r.0 == []
    ensures r.1.Some? ==> (r.1.value == q[FirstResumable(q, resumable)] &&
      r.0 == q[FirstResumable(q, resumable) + 1..] + [q[FirstResumable(q, resumable)]])
  {
    if |q| == 0 then ([], None)
    else if resumable(q[0]) then (q[1..] + [q[0]], Some(q[0]))
    else
      var r := RunOnce(q[1..], resumable);
      if r.1.Some? then
        assert q[1..][FirstResumable(q[1..], resumable) + 1..] == q[FirstResumable(q, resumable) + 1..];
        r
      else r
  }

  /** The coroutine list: `coro_list` is the head of `queue`, `tail` its
    * last entry. A coroutine is a handle. */
  class CoroQueue {
    var queue: seq<nat>

    constructor ()
      ensures queue == []
    {
      queue := [];
    }

    /** add_coroutine: the entry goes to the tail. */
    method Add(c: nat)
      modifies this
      ensures queue == old(queue) + [c]
    {
      queue := queue + [c];
    }

    /** create_coroutine: queued only when its node can be allocated. */
    method Create(c: nat, mallocOk: bool)
      modifies this
      ensures queue == if mallocOk then old(queue) + [c] else old(queue)
    {
      if !mallocOk {
        return;
      }
      Add(c);
    }

    /** pop_coroutine: the head leaves the queue; None when it is empty. */
    method Pop() returns (c: Option<nat>)
      modifies this
      ensures old(queue) == [] ==> c == None && queue == []
      ensures old(queue) != [] ==> c == Some(old(queue)[0]) && queue == old(queue)[1..]
    {
      if queue == [] {
        return None;
      }
      c := Some(queue[0]);
      queue := queue[1..];
    }

    /** run_coroutine: pops entries until one is resumable, re-queues that
      * one and resumes it; the rest popped are freed. */
    method Run(resumable: nat -> bool) returns (resumed: Option<nat>)
      modifies this
      ensures (queue, resumed) == RunOnce(old(queue), resumable)
    {
      while queue != []
        invariant RunOnce(queue, resumable) == RunOnce(old(queue), resumable)
        decreases |queue|
      {
        var c := Pop();
        if resumable(c.value) {
          Add(c.value);
          return c;
        }
      }
      return None;
    }
  }

  /** run_coroutine resumes at most one coroutine, keeps every resumable
    * entry queued, and leaves the queue no longer than before. */
  lemma RunKeepsResumable(q: seq<nat>, resumable: nat -> bool)
    ensures |RunOnce(q, resumable).0| <= |q|
    ensures forall c :: c in q && resumable(c) ==> c in RunOnce(q, resumable).0
  {
    var r := RunOnce(q, resumable);
    if r.1.Some? {
      var k := FirstResumable(q, resumable);
      forall c | c in q && resumable(c)
        ensures c in r.0
      {
        var j :| 0 <= j < |q| && q[j] == c;
        if j > k {
          assert q[k + 1..][j - k - 1] == c;
        }
      }
    }
  }

  // ---------------------------------------------------------------
  // Heap and mappings
  // ---------------------------------------------------------------

  /** The region list with the region of the given id resized. */
  function Resize(l: seq<Region>, id: nat, size: Word): (m: seq<Region>)
    ensures |m| == |l|
    ensures forall j :: 0 <= j < |l| ==> m[j] == if l[j].id == id then l[j].(size := size) else l[j]
  {
    if |l| == 0 then []
    else [if l[0].id == id then l[0].(size := size) else l[0]] + Resize(l[1..], id, size)
  }

  /** Resizing the region an id names is what a lookup then sees. */
  lemma ResizeLookup(l: seq<Region>, id: nat, size: Word)
    requires !Fresh(l, id)
    ensures RegionOf(Resize(l, id, size), id) == Some(RegionOf(l, id).value.(size := size))
  {
    var m := Resize(l, id, size);
    var i := IndexOfId(l, id);
    assert m[i].id == id;
    assert IndexOfId(m, id) == i by {
      assert IndexOfId(m, id) <= i;
      assert forall j :: 0 <= j < i ==> m[j].id == l[j].id;
    }
  }

  /** Resizing one region leaves what every other id names as it was. */
  lemma ResizeOther(l: seq<Region>, id: nat, size: Word, other: nat)
    requires other != id
    ensures RegionOf(Resize(l, id, size), other) == RegionOf(l, other)
  {
    var m := Resize(l, id, size);
    var i := IndexOfId(l, other);
    assert forall j :: 0 <= j < |l| ==> m[j].id == l[j].id;
    assert i < |l| ==> m[i] == l[i];
    assert IndexOfId(m, other) == i;
  }

  /** The lazy start of `_sys_brk` and `_sys_mmap`: without a heap, define
    * it below the stack and set used_top to its base. False where the
    * source would then dereference a NULL heap (or a missing stack). */
  method EnsureHeap(s: Space, heapId: nat, mallocOk: bool) returns (ok: bool)
    requires Fresh(s.regions, heapId)
    modifies s
    ensures s.stack == old(s.stack)
    ensures old(s.heap).Some? ==> ok && s.heap == old(s.heap) && s.regions == old(s.regions) &&
                                  s.usedTop == old(s.usedTop)
    ensures old(s.heap).None? && ok ==> (s.heap == Some(heapId) && RegionOf(s.regions, heapId).Some? &&
                                         s.usedTop == RegionOf(s.regions, heapId).value.vaddr)
    ensures old(s.heap).None? && ok ==> (
              old(s.stack).Some? && !Fresh(old(s.regions), old(s.stack).value) &&
              RegionOf(s.regions, heapId) == HeapRegion(RegionOf(old(s.regions), old(s.stack).value).value, s.layout, heapId))
    ensures !ok ==> s.regions == old(s.regions)
    ensures ok <==> s.heap.Some?
    ensures ok <==> old(s.heap).Some? || LazyHeapOk(old(s.regions), old(s.stack), s.layout, heapId, mallocOk)
    ensures old(s.heap).None? && ok ==> forall q :: q in s.regions <==> (q in old(s.regions) ||
              Some(q) == HeapRegion(RegionOf(old(s.regions), old(s.stack).value).value, s.layout, heapId))
    ensures Ordered(old(s.regions)) ==> Ordered(s.regions)
    ensures forall other :: Fresh(old(s.regions), other) && other != heapId ==> Fresh(s.regions, other)
    ensures forall other :: other != heapId ==> RegionOf(s.regions, other) == RegionOf(old(s.regions), other)
  {
    if s.heap.Some? {
      return true;
    }
    if s.stack.None? || RegionOf(s.regions, s.stack.value).None? {
      return false;
    }
    var err := s.DefineHeap(heapId, mallocOk);
    if err != 0 {
      return false;
    }
    s.usedTop := RegionOf(s.regions, heapId).value.vaddr;
    return true;
  }

  /** The lazy heap can be defined: the region recorded as the stack
    * exists and as_define_heap succeeds below it. */
  predicate LazyHeapOk(l: seq<Region>, stack: Option<nat>, layout: Layout, heapId: nat, mallocOk: bool) {
    stack.Some? && !Fresh(l, stack.value) &&
    DefineSucceeds(l, HeapRegion(RegionOf(l, stack.value).value, layout, heapId), mallocOk)
  }

  /** The heap region after `_sys_brk(newbrk)`: 0 or an address below the
    * current break leaves it as it is; otherwise it is resized to end at
    * newbrk (its page count is left as it was). */
  function Grow(h: Region, newbrk: Word): (g: Region)
    ensures g.id == h.id && g.vaddr == h.vaddr && g.npages == h.npages && g.flags == h.flags
    ensures (newbrk == 0 || newbrk < h.End()) ==> g == h
    ensures !(newbrk == 0 || newbrk < h.End()) ==> g.End() == newbrk
    ensures g.End() >= h.End()
  {
    if newbrk == 0 || newbrk < h.End() then h
    else h.(size := newbrk - h.vaddr)
  }

  /** `_sys_brk` once the heap is named: the heap region becomes its
    * Grow and the reply is its end, the new break. Fault when the region
    * the heap names is gone. */
  method GrowHeap(s: Space, newbrk: Word) returns (r: Reply)
    requires s.heap.Some?
    modifies s
    ensures s.heap == old(s.heap) && s.stack == old(s.stack) && s.usedTop == old(s.usedTop)
    ensures Fresh(old(s.regions), s.heap.value) ==> r == Fault && s.regions == old(s.regions)
    ensures !Fresh(old(s.regions), s.heap.value) ==> (
              var g := Grow(RegionOf(old(s.regions), s.heap.value).value, newbrk);
              s.regions == Resize(old(s.regions), s.heap.value, g.size) &&
              RegionOf(s.regions, s.heap.value) == Some(g) &&
              r == Reply(g.End() % WORD_MOD))
    ensures forall other :: other != s.heap.value ==> RegionOf(s.regions, other) == RegionOf(old(s.regions), other)
  {
    var h := RegionOf(s.regions, s.heap.value);
    if h.None? {
      return Fault;
    }
    var g := Grow(h.value, newbrk);
    ResizeLookup(s.regions, s.heap.value, g.size);
    forall other | other != s.heap.value
      ensures RegionOf(Resize(s.regions, s.heap.value, g.size), other) == RegionOf(s.regions, other)
    {
      ResizeOther(s.regions, s.heap.value, g.size, other);
    }
    s.regions := Resize(s.regions, s.heap.value, g.size);
    return Reply(g.End() % WORD_MOD);
  }

  /** `_sys_brk`: the heap is defined lazily, then GrowHeap. */
  method Brk(s: Space, newbrk: Word, heapId: nat, mallocOk: bool) returns (r: Reply)
    requires Fresh(s.regions, heapId)
    modifies s
    ensures s.stack == old(s.stack)
    ensures old(s.heap).Some? ==> s.heap == old(s.heap) && s.usedTop == old(s.usedTop)
    ensures old(s.heap).Some? && Fresh(old(s.regions), old(s.heap).value) ==>
              r == Fault && s.regions == old(s.regions)
    ensures old(s.heap).Some? && !Fresh(old(s.regions), old(s.heap).value) ==> (
              var g := Grow(RegionOf(old(s.regions), old(s.heap).value).value, newbrk);
              s.regions == Resize(old(s.regions), old(s.heap).value, g.size) &&
              r == Reply(g.End() % WORD_MOD))
    ensures old(s.heap).None? ==> (r.Fault? <==> s.heap.None?)
    ensures old(s.heap).None? ==> (r.Fault? <==> !LazyHeapOk(old(s.regions), old(s.stack), s.layout, heapId, mallocOk))
    ensures old(s.heap).None? && r.Fault? ==> s.regions == old(s.regions)
    ensures old(s.heap).None? && r.Reply? ==> (
              old(s.stack).Some? && !Fresh(old(s.regions), old(s.stack).value) &&
              var h := HeapRegion(RegionOf(old(s.regions), old(s.stack).value).value, s.layout, heapId);
              h.Some? && s.heap == Some(heapId) && s.usedTop == h.value.vaddr &&
              RegionOf(s.regions, heapId) == Some(Grow(h.value, newbrk)) &&
              r == Reply(Grow(h.value, newbrk).End() % WORD_MOD))
    ensures forall other :: other != heapId && Some(other) != old(s.heap) ==>
              RegionOf(s.regions, other) == RegionOf(old(s.regions), other)
  {
    var ok := EnsureHeap(s, heapId, mallocOk);
    if !ok {
      return Fault;
    }
    r := GrowHeap(s, newbrk);
  }

  /** `_sys_mmap`: the read-write region [used_top - size, used_top),
    * with used_top left where it was. Fault where the source dereferences
    * the NULL that a refused region gives. */
  method Mmap(s: Space, size: Word, heapId: nat, regionId: nat, heapOk: bool, regionOk: bool)
    returns (r: Reply)
    requires Fresh(s.regions, heapId) && Fresh(s.regions, regionId) && heapId != regionId
    modifies s
    ensures s.stack == old(s.stack)
    ensures old(s.heap).Some? ==> s.heap == old(s.heap) && s.usedTop == old(s.usedTop)
    ensures r.Reply? ==> (
              var base := (s.usedTop - size) % WORD_MOD;
              s.heap.Some? &&
              RegionOf(s.regions, regionId) == CreateRegion(regionId, base, size, s.layout.rgR | s.layout.rgW,
                                                 s.layout.userSpaceTop) &&
              r.ret == PageAlign(base))
    ensures !regionOk ==> r == Fault
    ensures old(s.heap).Some? ==>
              (r.Reply? <==> DefineSucceeds(old(s.regions),
                                            CreateRegion(regionId, (old(s.usedTop) - size) % WORD_MOD, size,
                                                         s.layout.rgR | s.layout.rgW, s.layout.userSpaceTop),
                                            regionOk))
    ensures old(s.heap).None? && !LazyHeapOk(old(s.regions), old(s.stack), s.layout, heapId, heapOk) ==> r == Fault
    ensures (old(s.heap).None? && LazyHeapOk(old(s.regions), old(s.stack), s.layout, heapId, heapOk) &&
             Ordered(old(s.regions))) ==> (
              var h := HeapRegion(RegionOf(old(s.regions), old(s.stack).value).value, s.layout, heapId).value;
              var c := CreateRegion(regionId, (h.vaddr - size) % WORD_MOD, size, s.layout.rgR | s.layout.rgW,
                                    s.layout.userSpaceTop);
              r.Reply? <==> regionOk && c.Some? && forall q :: q in old(s.regions) || q == h ==> !Hits(c.value, q))
    ensures forall other :: other != heapId && other != regionId ==>
              RegionOf(s.regions, other) == RegionOf(old(s.regions), other)
  {
    var ok := EnsureHeap(s, heapId, heapOk);
    if !ok {
      return Fault;
    }
    var vtop := s.usedTop;
    var vbase := (vtop - size) % WORD_MOD;
    var region := s.DefineRegion(vbase, size, s.layout.rgR | s.layout.rgW, regionId, regionOk);
    if region.None? {
      return Fault;
    }
    return Reply(RegionOf(s.regions, regionId).value.vaddr);
  }

  /** The index of the first region based at `base`, or |l|. */
  function FirstBasedAt(l: seq<Region>, base: Word): (i: nat)
    ensures i <= |l|
    ensures i < |l| ==> l[i].vaddr == base
    ensures forall j :: 0 <= j < i ==> l[j].vaddr != base
  {
    if |l| == 0 then 0
    else if l[0].vaddr == base then 0
    else 1 + FirstBasedAt(l[1..], base)
  }

  /** The reply of `_sys_munmap` as written: 0 once a region was found,
    * and otherwise `region->vaddr` with `region` NULL. */
  function MunmapReplyAsWritten(found: bool): (r: Reply)
    ensures r.Fault? <==> !found
  {
    if found then Reply(0) else Fault
  }

  /** The value the caller reads as failure: any non-zero word. */
  const MUNMAP_FAILED: Word := WORD_MOD - 1

  /** The reply of `_sys_munmap` as the caller in sys_morecore reads it:
    * 0 for success, anything else for failure. */
  function MunmapReply(found: bool): (r: Reply)
    ensures r.Reply? && (r.ret == 0 <==> found)
  {
    if found then Reply(0) else Reply(MUNMAP_FAILED)
  }

  /** Unmapping an address no region starts at faults as written. */
  lemma MunmapOfUnmappedFaults(l: seq<Region>, base: Word)
    requires forall q :: q in l ==> q.vaddr != base
    ensures FirstBasedAt(l, base) == |l|
    ensures MunmapReplyAsWritten(FirstBasedAt(l, base) < |l|) == Fault
    ensures MunmapReply(FirstBasedAt(l, base) < |l|) == Reply(MUNMAP_FAILED)
  {
    assert forall j :: 0 <= j < |l| ==> l[j] in l;
  }

  /** `_sys_munmap`: the first region based at `base` is destroyed and
    * used_top moves to its end; the reply is that of MunmapReply.
    * as_destroy_region is not part of this model: here it removes the
    * region from the list. */
  method Munmap(s: Space, base: Word) returns (r: Reply)
    modifies s
    ensures s.stack == old(s.stack) && s.heap == old(s.heap)
    ensures var i := FirstBasedAt(old(s.regions), base);
      r == MunmapReply(i < |old(s.regions)|) &&
      (i < |old(s.regions)| ==> s.regions == old(s.regions)[..i] + old(s.regions)[i + 1..] &&
                                s.usedTop == old(s.regions)[i].End() % WORD_MOD) &&
      (i == |old(s.regions)| ==> s.regions == old(s.regions) && s.usedTop == old(s.usedTop))
  {
    var i := 0;
    while i < |s.regions| && s.regions[i].vaddr != base
      invariant 0 <= i <= |s.regions|
      invariant forall j :: 0 <= j < i ==> s.regions[j].vaddr != base
    {
      i := i + 1;
    }
    assert i == FirstBasedAt(s.regions, base);
    if i == |s.regions| {
      return MunmapReply(false);
    }
    s.usedTop := s.regions[i].End() % WORD_MOD;
    s.regions := s.regions[..i] + s.regions[i + 1..];
    return MunmapReply(true);
  }
}
