/** A process address space: the list of regions it may touch, ordered by
  * base address, with the stack and heap regions singled out. The
  * linked list of the server is a sequence here; a region's identity
  * (its malloc'd address) is its `id`. */
module AddrSpace {
  import opened Common

  /** One region: page-aligned base, size in bytes, page count, RG_* bits
    * (create_region takes them as an `unsigned char`, so only the low
    * eight bits are kept). */
  datatype Region = Region(id: nat, vaddr: Word, size: Word, npages: nat, flags: bv32)
  {
    /** One past the last byte, as an unbounded integer. */
    function End(): int { vaddr + size }
  }

  // ---------------------------------------------------------------
  // create_region
  // ---------------------------------------------------------------

  /** create_region as written: every step is size_t arithmetic, so the
    * rounding and the USERSPACETOP test wrap modulo 2^64. */
  function CreateRegionAsWritten(id: nat, vaddr: Word, memsize: Word, flag: bv32, top: Word): (r: Option<Region>)
    ensures r.Some? ==> r.value.vaddr % PAGE_SIZE == 0 && r.value.size % PAGE_SIZE == 0
  {
    var grown := (memsize + vaddr % PAGE_SIZE) % WORD_MOD;
    var base := PageAlign(vaddr);
    var size := PageAlign((grown + PAGE_SIZE - 1) % WORD_MOD);
    if (base + size) % WORD_MOD > top then None
    else Some(Region(id, base, size, size / PAGE_SIZE, flag & 0xFF))
  }

  /** A two-page region at the last page of the address space passes the
    * top test as written: its end wraps around to 0x1000. */
  lemma CreateRegionAsWrittenWraps(top: Word)
    requires top >= 0x1000
    ensures CreateRegionAsWritten(0, 0xFFFF_FFFF_FFFF_F000, 0x2000, 0, top).Some?
    ensures CreateRegionAsWritten(0, 0xFFFF_FFFF_FFFF_F000, 0x2000, 0, top).value.End() > top
  {
  }

  /** The page-rounded size of [vaddr, vaddr + memsize) from vaddr's page. */
  function RoundedSize(vaddr: Word, memsize: Word): (s: nat)
    ensures s % PAGE_SIZE == 0
    ensures vaddr + memsize <= PageAlign(vaddr) + s < vaddr + memsize + PAGE_SIZE
  {
    var grown := memsize + vaddr % PAGE_SIZE;
    (grown + PAGE_SIZE - 1) / PAGE_SIZE * PAGE_SIZE
  }

  /** create_region with the arithmetic done without wrap-around. The
    * region starts at vaddr's page, covers [vaddr, vaddr + memsize) with
    * less than a page to spare, and is refused (None) exactly when its
    * end passes USERSPACETOP. */
  function CreateRegion(id: nat, vaddr: Word, memsize: Word, flag: bv32, top: Word): (r: Option<Region>)
    ensures r.None? <==> PageAlign(vaddr) + RoundedSize(vaddr, memsize) > top
    ensures r.Some? ==> r.value == Region(id, PageAlign(vaddr), RoundedSize(vaddr, memsize),
                                          RoundedSize(vaddr, memsize) / PAGE_SIZE, flag & 0xFF)
  {
    var base := PageAlign(vaddr);
    var size := RoundedSize(vaddr, memsize);
    if base + size > top then None
    else Some(Region(id, base, size, size / PAGE_SIZE, flag & 0xFF))
  }

  /** What a created region promises: aligned, covering, tight, below
    * the top, and npages whole pages. */
  lemma CreatedRegionCovers(id: nat, vaddr: Word, memsize: Word, flag: bv32, top: Word)
    requires CreateRegion(id, vaddr, memsize, flag, top).Some?
    ensures var r := CreateRegion(id, vaddr, memsize, flag, top).value;
      r.vaddr % PAGE_SIZE == 0 && r.size % PAGE_SIZE == 0 &&
      r.vaddr <= vaddr && vaddr + memsize <= r.End() &&
      r.End() - (vaddr + memsize) < PAGE_SIZE &&
      r.End() <= top && r.npages * PAGE_SIZE == r.size
  {
  }

  /** Where nothing wraps, the code as written computes the same region. */
  lemma CreateRegionAgrees(id: nat, vaddr: Word, memsize: Word, flag: bv32, top: Word)
    requires vaddr + memsize + 2 * PAGE_SIZE < WORD_MOD
    ensures CreateRegionAsWritten(id, vaddr, memsize, flag, top) == CreateRegion(id, vaddr, memsize, flag, top)
  {
    var grown := memsize + vaddr % PAGE_SIZE;
    assert (grown + PAGE_SIZE - 1) % WORD_MOD == grown + PAGE_SIZE - 1;
    var size := RoundedSize(vaddr, memsize);
    assert PageAlign(grown + PAGE_SIZE - 1) == size;
  }

  // ---------------------------------------------------------------
  // The region list
  // ---------------------------------------------------------------

  /** Sorted by base and free of overlap: each region ends at or before
    * the next one begins. */
  ghost predicate Ordered(l: seq<Region>) {
    forall k :: 0 <= k < |l| - 1 ==> l[k].End() <= l[k + 1].vaddr
  }

  /** Any two regions of an ordered list are disjoint and in order. */
  lemma {:induction false} OrderedDisjoint(l: seq<Region>, i: int, j: int)
    requires Ordered(l) && 0 <= i < j < |l|
    ensures l[i].End() <= l[j].vaddr
    decreases j - i
  {
    if j > i + 1 {
      OrderedDisjoint(l, i, j - 1);
      assert l[j - 1].vaddr <= l[j - 1].End();
    }
  }

  /** r meets q: r's base lies inside q, or q's base lies past r's base
    * and inside r. (An empty q at r's own base is not met: nothing of it
    * lies inside r.) */
  predicate Hits(r: Region, q: Region) {
    (q.vaddr <= r.vaddr < q.End()) || (r.vaddr < q.vaddr < r.End())
  }

  /** In an ordered list, a region that hits nothing cannot overlap any
    * region of positive size. */
  lemma OrderedInsertDisjoint(l: seq<Region>, k: int, r: Region, q: Region)
    requires 0 <= k <= |l| && Ordered(l[..k] + [r] + l[k..]) && q in l && q.size > 0 && r.size > 0
    ensures !(q.vaddr < r.End() && r.vaddr < q.End())
  {
    var m := l[..k] + [r] + l[k..];
    var j :| 0 <= j < |l| && l[j] == q;
    if j < k {
      assert m[j] == q && m[k] == r;
      OrderedDisjoint(m, j, k);
    } else {
      assert m[j + 1] == q && m[k] == r;
      OrderedDisjoint(m, k, j + 1);
    }
  }

  /** Inserting r at position k keeps the order when r fits between its
    * neighbours. */
  lemma InsertOrdered(l: seq<Region>, k: int, r: Region)
    requires 0 <= k <= |l| && Ordered(l)
    requires k > 0 ==> l[k - 1].End() <= r.vaddr
    requires k < |l| ==> r.End() <= l[k].vaddr
    ensures Ordered(l[..k] + [r] + l[k..])
  {
    var m := l[..k] + [r] + l[k..];
    forall i | 0 <= i < |m| - 1
      ensures m[i].End() <= m[i + 1].vaddr
    {
      if i < k - 1 {
        assert m[i] == l[i] && m[i + 1] == l[i + 1];
      } else if i == k - 1 {
      } else if i == k {
      } else {
        assert m[i] == l[i - 1] && m[i + 1] == l[i];
      }
    }
  }

  /** r fits at position k: after the region before it and before the
    * region after it. */
  predicate Fits(l: seq<Region>, k: int, r: Region) {
    0 <= k <= |l| &&
    (k > 0 ==> l[k - 1].End() <= r.vaddr) &&
    (k < |l| ==> r.End() <= l[k].vaddr)
  }

  /** The verdict of the corrected insert_region scan from position k,
    * whose base is at or below r's: r is refused when it starts inside
    * l[k] or runs into the next region it would be linked before. */
  predicate BlockedFrom(l: seq<Region>, r: Region, k: nat)
    requires k < |l| && l[k].vaddr <= r.vaddr
    decreases |l| - k
  {
    if r.vaddr - l[k].vaddr < l[k].size then true
    else if k == |l| - 1 then false
    else if r.vaddr < l[k + 1].vaddr then r.End() > l[k + 1].vaddr
    else BlockedFrom(l, r, k + 1)
  }

  /** insert_region, corrected, refuses r: it runs into the head it would
    * go in front of, or the scan from the head refuses it. */
  predicate Blocked(l: seq<Region>, r: Region) {
    if |l| == 0 then false
    else if r.vaddr < l[0].vaddr then r.End() > l[0].vaddr
    else BlockedFrom(l, r, 0)
  }

  /** A refusal of the scan from k names a region r hits. */
  lemma {:induction false} BlockedFromHits(l: seq<Region>, r: Region, k: nat)
    requires k < |l| && l[k].vaddr <= r.vaddr && BlockedFrom(l, r, k)
    ensures exists q :: q in l && Hits(r, q)
    decreases |l| - k
  {
    if r.vaddr - l[k].vaddr < l[k].size {
      assert Hits(r, l[k]);
    } else if r.vaddr < l[k + 1].vaddr {
      assert Hits(r, l[k + 1]);
    } else {
      BlockedFromHits(l, r, k + 1);
    }
  }

  /** In an ordered list, a scan from k that accepts r leaves r hitting
    * no region of the list. */
  lemma {:induction false} AcceptedFromHitsNothing(l: seq<Region>, r: Region, k: nat)
    requires Ordered(l) && k < |l| && l[k].vaddr <= r.vaddr && !BlockedFrom(l, r, k)
    ensures forall j :: 0 <= j < |l| ==> !Hits(r, l[j])
    decreases |l| - k
  {
    assert l[k].End() <= r.vaddr;
    forall j | 0 <= j < k
      ensures l[j].End() <= r.vaddr
    {
      OrderedDisjoint(l, j, k);
    }
    if k < |l| - 1 {
      if r.vaddr < l[k + 1].vaddr {
        forall j | k + 1 < j < |l|
          ensures l[k + 1].vaddr <= l[j].vaddr
        {
          OrderedDisjoint(l, k + 1, j);
        }
      } else {
        AcceptedFromHitsNothing(l, r, k + 1);
      }
    }
  }

  /** In an ordered list, the corrected insert_region refuses r exactly
    * when r hits a region of the list. */
  lemma BlockedIffHits(l: seq<Region>, r: Region)
    requires Ordered(l)
    ensures Blocked(l, r) <==> exists q :: q in l && Hits(r, q)
  {
    if |l| == 0 {
    } else if r.vaddr < l[0].vaddr {
      if r.End() > l[0].vaddr {
        assert Hits(r, l[0]);
      } else {
        forall q | q in l
          ensures !Hits(r, q)
        {
          var j :| 0 <= j < |l| && l[j] == q;
          if j > 0 {
            OrderedDisjoint(l, 0, j);
          }
        }
      }
    } else if BlockedFrom(l, r, 0) {
      BlockedFromHits(l, r, 0);
    } else {
      AcceptedFromHitsNothing(l, r, 0);
    }
  }

  /** as_define_region succeeds: malloc and create_region succeed and
    * insert_region accepts the created region. */
  predicate DefineSucceeds(l: seq<Region>, created: Option<Region>, mallocOk: bool) {
    mallocOk && created.Some? && !Blocked(l, created.value)
  }

  /** l with r inserted at position k. */
  function InsertAt(l: seq<Region>, k: int, r: Region): (m: seq<Region>)
    requires 0 <= k <= |l|
    ensures |m| == |l| + 1 && m[k] == r
    ensures forall q :: q in m <==> q in l || q == r
  {
    assert l == l[..k] + l[k..];
    l[..k] + [r] + l[k..]
  }

  /** insert_region as written, from position k of a non-empty list. */
  function InsertFromAsWritten(l: seq<Region>, r: Region, k: int): (res: Option<seq<Region>>)
    requires 0 <= k < |l|
    ensures res.Some? ==> |res.value| == |l| + 1 && r in res.value
    decreases |l| - k
  {
    var v := r.vaddr;
    var tmp := l[k];
    if v > tmp.vaddr && v - tmp.vaddr < tmp.size then None
    else if k == |l| - 1 then Some(l + [r])
    else if v < l[k + 1].vaddr then
      if (v + r.size) % WORD_MOD > l[k + 1].vaddr then None
      else Some(l[..k + 1] + [r] + l[k + 1..])
    else InsertFromAsWritten(l, r, k + 1)
  }

  /** insert_region as written: the first region starts the list;
    * otherwise the scan starts at the head, which it never puts the new
    * region in front of, and it misses a region with the same base. */
  function InsertAsWritten(l: seq<Region>, r: Region): (res: Option<seq<Region>>)
    ensures res.Some? ==> |res.value| == |l| + 1 && r in res.value
  {
    if |l| == 0 then Some([r]) else InsertFromAsWritten(l, r, 0)
  }

  function R(id: nat, vaddr: Word, size: Word): Region { Region(id, vaddr, size, size / PAGE_SIZE, 0) }

  /** A region with the same base as the head is accepted and placed
    * after it: the list is no longer ordered and the two overlap. */
  lemma InsertAsWrittenAcceptsOverlap()
    ensures Ordered([R(1, 0x1000, 0x1000), R(2, 0x5000, 0x1000)])
    ensures InsertAsWritten([R(1, 0x1000, 0x1000), R(2, 0x5000, 0x1000)], R(3, 0x1000, 0x1000))
            == Some([R(1, 0x1000, 0x1000), R(3, 0x1000, 0x1000), R(2, 0x5000, 0x1000)])
    ensures !Ordered([R(1, 0x1000, 0x1000), R(3, 0x1000, 0x1000), R(2, 0x5000, 0x1000)])
  {
    var l := [R(1, 0x1000, 0x1000), R(2, 0x5000, 0x1000)];
    var m := [R(1, 0x1000, 0x1000), R(3, 0x1000, 0x1000), R(2, 0x5000, 0x1000)];
    assert l[..1] + [R(3, 0x1000, 0x1000)] + l[1..] == m;
    assert InsertFromAsWritten(l, R(3, 0x1000, 0x1000), 0) == Some(m);
    assert m[0].End() > m[1].vaddr;
  }

  /** No region of l carries the id. */
  predicate Fresh(l: seq<Region>, id: nat) {
    forall j :: 0 <= j < |l| ==> l[j].id != id
  }

  /** The index of the first region with the given id, or |l|. */
  function IndexOfId(l: seq<Region>, id: nat): (i: nat)
    ensures i <= |l|
    ensures i < |l| ==> l[i].id == id
    ensures forall j :: 0 <= j < i ==> l[j].id != id
  {
    if |l| == 0 then 0
    else if l[0].id == id then 0
    else 1 + IndexOfId(l[1..], id)
  }

  /** The region named by an id, if it is in the list. */
  function RegionOf(l: seq<Region>, id: nat): (r: Option<Region>)
    ensures r.None? <==> Fresh(l, id)
    ensures r.Some? ==> r.value in l && r.value.id == id
  {
    var i := IndexOfId(l, id);
    if i < |l| then Some(l[i]) else None
  }

  /** A region that is the only one with its id is the one RegionOf finds. */
  lemma RegionOfUnique(l: seq<Region>, r: Region)
    requires r in l && forall q :: q in l && q.id == r.id ==> q == r
    ensures RegionOf(l, r.id) == Some(r)
  {
    var k :| 0 <= k < |l| && l[k] == r;
    assert IndexOfId(l, r.id) <= k;
  }

  /** Inserting a region keeps every other id fresh. */
  lemma InsertAtFresh(l: seq<Region>, k: int, r: Region, id: nat)
    requires 0 <= k <= |l| && Fresh(l, id) && r.id != id
    ensures Fresh(InsertAt(l, k, r), id)
  {
    var m := InsertAt(l, k, r);
    forall j | 0 <= j < |m|
      ensures m[j].id != id
    {
      if j < k {
        assert m[j] == l[j];
      } else if j > k {
        assert m[j] == l[j - 1];
      }
    }
  }

  /** Inserting a region leaves what every other id names as it was. */
  lemma InsertAtLookup(l: seq<Region>, k: int, r: Region, id: nat)
    requires 0 <= k <= |l| && r.id != id
    ensures RegionOf(InsertAt(l, k, r), id) == RegionOf(l, id)
  {
    var m := InsertAt(l, k, r);
    var i := IndexOfId(l, id);
    var shifted := if i < k then i else i + 1;
    assert forall j :: 0 <= j < k ==> m[j] == l[j];
    assert forall j :: k < j < |m| ==> m[j] == l[j - 1];
    assert shifted < |m| ==> m[shifted].id == id;
    assert forall j :: 0 <= j < shifted ==> m[j].id != id;
    assert IndexOfId(m, id) == shifted;
  }

  /** An address space. addrspace.h declares only `regions`; the code
    * also uses the `stack`, `heap` and `used_top` fields. */
  class Space {
    var regions: seq<Region>
    var stack: Option<nat>
    var heap: Option<nat>
    var usedTop: Word
    const layout: Layout

    /** addrspace_init after a successful malloc: no regions, no heap.
      * The stack pointer and used_top are left uninitialised by the
      * source; here they start empty and zero. */
    constructor (layout: Layout)
      ensures regions == [] && heap == None && stack == None && usedTop == 0 && this.layout == layout
    {
      regions := [];
      stack := None;
      heap := None;
      usedTop := 0;
      this.layout := layout;
    }

    /** The scan of insert_region, with the head and equal bases checked:
      * -1 when r hits a region of the list, otherwise the position at
      * which r fits between its neighbours. */
    method Slot(r: Region) returns (k: int)
      ensures -1 <= k <= |regions|
      ensures k == -1 <==> Blocked(regions, r)
      ensures k == -1 ==> exists q :: q in regions && Hits(r, q)
      ensures k >= 0 ==> Fits(regions, k, r)
    {
      var v := r.vaddr;
      if |regions| == 0 {
        return 0;
      }
      if v < regions[0].vaddr {
        if v + r.size > regions[0].vaddr {
          assert Hits(r, regions[0]);
          return -1;
        }
        return 0;
      }
      k := 0;
      while true
        invariant 0 <= k < |regions|
        invariant regions[k].vaddr <= v
        invariant k > 0 ==> regions[k - 1].End() <= v
        invariant Blocked(regions, r) == BlockedFrom(regions, r, k)
        decreases |regions| - k
      {
        var tmp := regions[k];
        if v - tmp.vaddr < tmp.size {
          assert Hits(r, tmp);
          return -1;
        }
        if k == |regions| - 1 {
          return k + 1;
        }
        if v < regions[k + 1].vaddr {
          if v + r.size > regions[k + 1].vaddr {
            assert Hits(r, regions[k + 1]);
            return -1;
          }
          return k + 1;
        }
        k := k + 1;
      }
    }

    /** insert_region, corrected: -1 and no change when r hits a region of
      * the list; otherwise r is inserted where it fits, which keeps an
      * ordered list ordered. */
    method InsertRegion(r: Region) returns (result: int)
      modifies this
      ensures result == 0 || result == -1
      ensures stack == old(stack) && heap == old(heap) && usedTop == old(usedTop)
      ensures result == -1 <==> Blocked(old(regions), r)
      ensures result == -1 ==> regions == old(regions) && exists q :: q in old(regions) && Hits(r, q)
      ensures result == 0 ==> (exists k :: 0 <= k <= |old(regions)| && Fits(old(regions), k, r) &&
                                           regions == InsertAt(old(regions), k, r))
      ensures result == 0 && Ordered(old(regions)) ==> Ordered(regions)
    {
      var k := Slot(r);
      if k < 0 {
        return -1;
      }
      if Ordered(regions) {
        InsertOrdered(regions, k, r);
      }
      regions := InsertAt(regions, k, r);
      return 0;
    }

    /** as_define_region: None when create_region refuses (past the top
      * of user space, or malloc failed) or insert_region refuses;
      * otherwise the new region's id, with the region in the list. */
    method DefineRegion(vaddr: Word, memsize: Word, flag: bv32, id: nat, mallocOk: bool)
      returns (result: Option<nat>)
      requires Fresh(regions, id)
      modifies this
      ensures stack == old(stack) && heap == old(heap) && usedTop == old(usedTop)
      ensures result.Some? <==> DefineSucceeds(old(regions), CreateRegion(id, vaddr, memsize, flag, layout.userSpaceTop), mallocOk)
      ensures Ordered(old(regions)) ==>
                (result.Some? <==> mallocOk && CreateRegion(id, vaddr, memsize, flag, layout.userSpaceTop).Some? &&
                                   forall q :: q in old(regions) ==>
                                     !Hits(CreateRegion(id, vaddr, memsize, flag, layout.userSpaceTop).value, q))
      ensures result.Some? ==> forall q :: q in regions <==>
                                 (q in old(regions) || Some(q) == CreateRegion(id, vaddr, memsize, flag, layout.userSpaceTop))
      ensures result.Some? ==> (result.value == id &&
                                RegionOf(regions, id) == CreateRegion(id, vaddr, memsize, flag, layout.userSpaceTop) &&
                                |regions| == |old(regions)| + 1 &&
                                (Ordered(old(regions)) ==> Ordered(regions)))
      ensures result.None? ==> regions == old(regions)
      ensures forall other :: Fresh(old(regions), other) && other != id ==> Fresh(regions, other)
      ensures forall other :: other != id ==> RegionOf(regions, other) == RegionOf(old(regions), other)
    {
      var created := CreateRegion(id, vaddr, memsize, flag, layout.userSpaceTop);
      if created.None? || !mallocOk {
        return None;
      }
      if Ordered(regions) {
        BlockedIffHits(regions, created.value);
      }
      var r := InsertRegion(created.value);
      if r != 0 {
        return None;
      }
      forall q | q in old(regions)
        ensures q.id != id
      {
        var j :| 0 <= j < |old(regions)| && old(regions)[j] == q;
      }
      RegionOfUnique(regions, created.value);
      forall other | Fresh(old(regions), other) && other != id
        ensures Fresh(regions, other)
      {
        var k :| 0 <= k <= |old(regions)| && regions == InsertAt(old(regions), k, created.value);
        InsertAtFresh(old(regions), k, created.value, other);
      }
      forall other | other != id
        ensures RegionOf(regions, other) == RegionOf(old(regions), other)
      {
        var k :| 0 <= k <= |old(regions)| && regions == InsertAt(old(regions), k, created.value);
        InsertAtLookup(old(regions), k, created.value, other);
      }
      return Some(id);
    }

    /** as_define_stack: the read-write region
      * [USERSTACKTOP - USERSTACKSIZE, USERSTACKTOP), recorded as the stack. */
    method DefineStack(id: nat, mallocOk: bool) returns (result: int)
      requires Fresh(regions, id) && layout.Valid()
      modifies this
      ensures result == 0 || result == -1
      ensures result == 0 <==> DefineSucceeds(old(regions), CreateRegion(id, layout.userStackTop - layout.userStackSize,
                                                            layout.userStackSize, layout.rgR | layout.rgW,
                                                            layout.userSpaceTop), mallocOk)
      ensures result == 0 ==> (stack == Some(id) &&
                               RegionOf(regions, id) == Some(Region(id, layout.userStackTop - layout.userStackSize,
                                                         layout.userStackSize, layout.userStackSize / PAGE_SIZE,
                                                         (layout.rgR | layout.rgW) & 0xFF)))
      ensures result == 0 ==> forall q :: q in regions <==>
                                (q in old(regions) || Some(q) == CreateRegion(id, layout.userStackTop - layout.userStackSize, layout.userStackSize,
                                              layout.rgR | layout.rgW, layout.userSpaceTop))
      ensures result == 0 && Ordered(old(regions)) ==> Ordered(regions)
      ensures forall other :: Fresh(old(regions), other) && other != id ==> Fresh(regions, other)
      ensures forall other :: other != id ==> RegionOf(regions, other) == RegionOf(old(regions), other)
      ensures result == -1 ==> stack == old(stack) && regions == old(regions)
      ensures heap == old(heap) && usedTop == old(usedTop)
    {
      var r := DefineRegion(layout.userStackTop - layout.userStackSize, layout.userStackSize,
                            layout.rgR | layout.rgW, id, mallocOk);
      if r.None? {
        return -1;
      }
      StackRegionExact(layout);
      stack := r;
      return 0;
    }

    /** as_define_ipcbuffer: a one-page read-write region at USERIPCBUFFER.
      * As written it records that region in `stack`. */
    method DefineIpcBuffer(id: nat, mallocOk: bool) returns (result: int)
      requires Fresh(regions, id) && layout.Valid()
      modifies this
      ensures result == 0 || result == -1
      ensures result == 0 <==> DefineSucceeds(old(regions), CreateRegion(id, layout.userIpcBuffer, PAGE_SIZE,
                                                            layout.rgR | layout.rgW, layout.userSpaceTop), mallocOk)
      ensures result == 0 ==> (stack == Some(id) &&
                               RegionOf(regions, id) == Some(Region(id, layout.userIpcBuffer, PAGE_SIZE, 1,
                                                         (layout.rgR | layout.rgW) & 0xFF)))
      ensures result == 0 ==> forall q :: q in regions <==>
                                (q in old(regions) || Some(q) == CreateRegion(id, layout.userIpcBuffer, PAGE_SIZE, layout.rgR | layout.rgW, layout.userSpaceTop))
      ensures result == 0 && Ordered(old(regions)) ==> Ordered(regions)
      ensures forall other :: Fresh(old(regions), other) && other != id ==> Fresh(regions, other)
      ensures forall other :: other != id ==> RegionOf(regions, other) == RegionOf(old(regions), other)
      ensures result == -1 ==> stack == old(stack) && regions == old(regions)
      ensures heap == old(heap) && usedTop == old(usedTop)
    {
      var r := DefineRegion(layout.userIpcBuffer, PAGE_SIZE, layout.rgR | layout.rgW, id, mallocOk);
      if r.None? {
        return -1;
      }
      stack := r;
      return 0;
    }

    /** as_define_heap: an empty read-write region USERHEAPSIZE below the
      * base of the region recorded as the stack (which must exist). */
    method DefineHeap(id: nat, mallocOk: bool) returns (result: int)
      requires Fresh(regions, id) && stack.Some? && !Fresh(regions, stack.value)
      modifies this
      ensures result == 0 || result == -1
      ensures result == 0 <==> DefineSucceeds(old(regions), HeapRegion(RegionOf(old(regions), old(stack).value).value,
                                                                      layout, id), mallocOk)
      ensures result == 0 ==> (forall q :: q in regions <==> (q in old(regions) ||
                                 Some(q) == HeapRegion(RegionOf(old(regions), old(stack).value).value, layout, id)))
      ensures result == 0 && Ordered(old(regions)) ==> Ordered(regions)
      ensures result == 0 ==> (heap == Some(id) && RegionOf(regions, id).Some? &&
                               RegionOf(regions, id) == CreateRegion(id, HeapBase(RegionOf(old(regions), old(stack).value).value.vaddr, layout),
                                                          0, layout.rgR | layout.rgW, layout.userSpaceTop))
      ensures result == -1 ==> heap == old(heap) && regions == old(regions)
      ensures stack == old(stack) && usedTop == old(usedTop)
      ensures forall other :: Fresh(old(regions), other) && other != id ==> Fresh(regions, other)
      ensures forall other :: other != id ==> RegionOf(regions, other) == RegionOf(old(regions), other)
    {
      var below := RegionOf(regions, stack.value);
      var r := DefineRegion(HeapBase(below.value.vaddr, layout), 0, layout.rgR | layout.rgW, id, mallocOk);
      if r.None? {
        return -1;
      }
      heap := r;
      return 0;
    }
  }

  /** The empty read-write region as_define_heap creates USERHEAPSIZE
    * below the stack region, None when create_region refuses it. */
  function HeapRegion(stack: Region, layout: Layout, id: nat): (h: Option<Region>)
    ensures h.Some? ==> h.value.id == id && h.value.vaddr == PageAlign(HeapBase(stack.vaddr, layout)) &&
                        h.value.size <= PAGE_SIZE
  {
    CreateRegion(id, HeapBase(stack.vaddr, layout), 0, layout.rgR | layout.rgW, layout.userSpaceTop)
  }

  /** `as->stack->vaddr - USERHEAPSIZE`, wrapping as seL4_Word does. */
  function HeapBase(stackBase: Word, layout: Layout): (b: Word)
    ensures layout.userHeapSize <= stackBase ==> b == stackBase - layout.userHeapSize
  {
    (stackBase - layout.userHeapSize) % WORD_MOD
  }

  /** The stack region create_region builds is exactly the layout's stack. */
  lemma StackRegionExact(layout: Layout)
    requires layout.Valid()
    ensures PageAlign(layout.userStackTop - layout.userStackSize) == layout.userStackTop - layout.userStackSize
    ensures RoundedSize(layout.userStackTop - layout.userStackSize, layout.userStackSize) == layout.userStackSize
  {
  }
}
