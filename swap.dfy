/** Demand paging to the swap file (swap.c): a clock scan over the frame
  * table picks a victim frame, which is written to a slot of the swap file
  * and freed. Free slots form a LIFO list threaded through the file: each
  * free slot holds the number of the next one, `header` is the first, and
  * `tail` (the slot count) ends the list. The file itself is a map from
  * slot numbers to slot contents; VOP_READ and VOP_WRITE are reads and
  * writes of that map. */
module Swap {
  import opened Common
  import FT = FrameTable

  // ---------------------------------------------------------------
  // The clock scan of try_swap_out
  // ---------------------------------------------------------------

  /** The scan's bounds: the hand runs over [first, max - 1) and the table
    * is long enough for it. */
  predicate ScanBounds(fs: seq<FT.Frame>, first: nat, max: nat, hand: nat)
  {
    first + 1 < max <= |fs| + 1 && first <= hand <= max - 1
  }

  /** The frame the hand inspects: max - 1 wraps to the first frame. */
  function Norm(first: nat, max: nat, hand: nat): nat
  {
    if hand == max - 1 then first else hand
  }

  predicate Pinned(f: FT.Frame) { FT.BitSet(f.flag, FT.PIN) }

  /** The reference bit, taken at bit 2 (FT.CLOCK): the frame table's own
    * CLOCK is bit 4, the lowest bit of the PID field, so the scan here
    * uses the corrected bit (see FT.ClockBitAliasesPid). */
  predicate Referenced(f: FT.Frame) { FT.BitSet(f.flag, FT.CLOCK) }

  /** A frame given a second chance: its reference bit cleared. */
  function Cleared(f: FT.Frame): (g: FT.Frame)
    ensures !Referenced(g) && Pinned(g) == Pinned(f)
    ensures g.(flag := f.flag) == f
  {
    ClearKeepsPin(f.flag);
    f.(flag := FT.ClearBit(f.flag, FT.CLOCK))
  }

  /** The outcome of a scan: the victim, if any, the final hand, the frame
    * records afterwards and the frames given a second chance (reference
    * bit cleared, mapping revoked), in visiting order. */
  datatype ScanResult = ScanResult(victim: Option<nat>, hand: nat, frames: seq<FT.Frame>, unmapped: seq<nat>)

  /** `steps` iterations of the scan loop from `hand`. A pinned frame is
    * skipped, a referenced one loses its reference bit, and the first
    * frame with neither is the victim; the hand ends one past it. */
  function Scan(fs: seq<FT.Frame>, first: nat, max: nat, hand: nat, steps: nat): (r: ScanResult)
    requires ScanBounds(fs, first, max, hand)
    ensures |r.frames| == |fs|
    decreases steps
  {
    if steps == 0 then ScanResult(None, hand, fs, [])
    else
      var h := Norm(first, max, hand);
      if Pinned(fs[h]) then Scan(fs, first, max, h + 1, steps - 1)
      else if Referenced(fs[h]) then
        Prefix([h], Scan(fs[h := Cleared(fs[h])], first, max, h + 1, steps - 1))
      else ScanResult(Some(h), h + 1, fs, [])
  }

  /** The victim is an unpinned, unreferenced frame in the scanned range
    * and the hand ends just past it; the hand stays in range. */
  lemma {:induction false} ScanVictim(fs: seq<FT.Frame>, first: nat, max: nat, hand: nat, steps: nat)
    requires ScanBounds(fs, first, max, hand)
    ensures var r := Scan(fs, first, max, hand, steps);
      |r.frames| == |fs| && first <= r.hand <= max - 1 &&
      (r.victim.Some? ==>
         var v := r.victim.value;
         first <= v < max - 1 && r.hand == v + 1 && !Pinned(r.frames[v]) && !Referenced(r.frames[v]))
    decreases steps
  {
    if steps > 0 {
      var h := Norm(first, max, hand);
      if Pinned(fs[h]) {
        ScanVictim(fs, first, max, h + 1, steps - 1);
      } else if Referenced(fs[h]) {
        ScanVictim(fs[h := Cleared(fs[h])], first, max, h + 1, steps - 1);
      }
    }
  }

  /** Every frame the scan reports as unmapped lies in the scanned range. */
  lemma {:induction false} ScanUnmappedInRange(fs: seq<FT.Frame>, first: nat, max: nat, hand: nat, steps: nat)
    requires ScanBounds(fs, first, max, hand)
    ensures forall i :: 0 <= i < |Scan(fs, first, max, hand, steps).unmapped| ==>
      first <= Scan(fs, first, max, hand, steps).unmapped[i] < max - 1
    decreases steps
  {
    if steps > 0 {
      var h := Norm(first, max, hand);
      if Pinned(fs[h]) {
        ScanUnmappedInRange(fs, first, max, h + 1, steps - 1);
      } else if Referenced(fs[h]) {
        ScanUnmappedInRange(fs[h := Cleared(fs[h])], first, max, h + 1, steps - 1);
      }
    }
  }

  /** The scan changes a frame only by clearing the reference bit of an
    * unpinned, referenced frame, and each such frame is reported as
    * unmapped. */
  lemma {:induction false} ScanOnlyClears(fs: seq<FT.Frame>, first: nat, max: nat, hand: nat, steps: nat)
    requires ScanBounds(fs, first, max, hand)
    ensures var r := Scan(fs, first, max, hand, steps);
      forall i :: 0 <= i < |fs| ==>
         r.frames[i] == fs[i] ||
         (!Pinned(fs[i]) && Referenced(fs[i]) && i in r.unmapped &&
          r.frames[i] == Cleared(fs[i]))
    decreases steps
  {
    if steps > 0 {
      var h := Norm(first, max, hand);
      if Pinned(fs[h]) {
        ScanOnlyClears(fs, first, max, h + 1, steps - 1);
      } else if Referenced(fs[h]) {
        var f := Cleared(fs[h]);
        var fs' := fs[h := f];
        ScanOnlyClears(fs', first, max, h + 1, steps - 1);
        var r' := Scan(fs', first, max, h + 1, steps - 1);
        var r := Scan(fs, first, max, hand, steps);
        assert r.unmapped == [h] + r'.unmapped;
        forall i | 0 <= i < |fs|
          ensures r.frames[i] == fs[i] ||
            (!Pinned(fs[i]) && Referenced(fs[i]) && i in r.unmapped &&
             r.frames[i] == Cleared(fs[i]))
        {
          if i == h {
            // the bit just cleared is not cleared again
            assert !Referenced(fs'[i]);
            assert i in r.unmapped;
          }
        }
      }
    }
  }

  /** Frames unmapped earlier in the scan, put before those of a later
    * part. */
  function Prefix(u: seq<nat>, r: ScanResult): ScanResult
  {
    r.(unmapped := u + r.unmapped)
  }

  /** One iteration of the scan loop, for a scan of which the frames in
    * `u` were unmapped by earlier iterations. */
  lemma ScanAdvance(r0: ScanResult, u: seq<nat>, fs: seq<FT.Frame>, first: nat, max: nat, hand: nat, n: nat)
    requires ScanBounds(fs, first, max, hand) && n > 0
    requires r0 == Prefix(u, Scan(fs, first, max, hand, n))
    ensures var h := Norm(first, max, hand);
      var f := fs[h];
      (Pinned(f) ==> r0 == Prefix(u, Scan(fs, first, max, h + 1, n - 1))) &&
      (!Pinned(f) && Referenced(f) ==> r0 == Prefix(u + [h], Scan(fs[h := Cleared(f)], first, max, h + 1, n - 1))) &&
      (!Pinned(f) && !Referenced(f) ==> r0 == ScanResult(Some(h), h + 1, fs, u))
  {
    var h := Norm(first, max, hand);
    var f := fs[h];
    if !Pinned(f) && Referenced(f) {
      var r := Scan(fs[h := Cleared(f)], first, max, h + 1, n - 1);
      assert u + ([h] + r.unmapped) == (u + [h]) + r.unmapped;
    } else if !Pinned(f) {
      assert u + [] == u;
    }
  }

  /** ScanAdvance for the outcome of one Tick: the victim ends the scan,
    * otherwise the rest of the scan runs on the frames Tick left. */
  lemma ScanTick(r0: ScanResult, u: seq<nat>, fs: seq<FT.Frame>, fs': seq<FT.Frame>, first: nat, max: nat,
                 hand: nat, n: nat, victim: bool, cleared: bool, hand': nat)
    requires ScanBounds(fs, first, max, hand) && ScanBounds(fs', first, max, hand') && n > 0
    requires r0 == Prefix(u, Scan(fs, first, max, hand, n))
    requires var h := Norm(first, max, hand);
      victim == (!Pinned(fs[h]) && !Referenced(fs[h])) && cleared == (!Pinned(fs[h]) && Referenced(fs[h])) &&
      hand' == (if victim then h else h + 1) &&
      fs' == (if cleared then fs[h := Cleared(fs[h])] else fs)
    ensures victim ==> r0 == ScanResult(Some(hand'), hand' + 1, fs', u)
    ensures !victim ==> r0 == Prefix(if cleared then u + [Norm(first, max, hand)] else u, Scan(fs', first, max, hand', n - 1))
  {
    ScanAdvance(r0, u, fs, first, max, hand, n);
  }

  /** Clearing the reference bit leaves the pin bit alone. */
  lemma ClearKeepsPin(flag: bv16)
    ensures FT.BitSet(FT.ClearBit(flag, FT.CLOCK), FT.PIN) == FT.BitSet(flag, FT.PIN)
  {
  }

  /** How many steps the hand needs from h to reach frame k. */
  function Dist(first: nat, max: nat, h: nat, k: nat): nat
    requires first <= h < max - 1 && first <= k < max - 1
  {
    if h <= k then k - h else k + (max - 1 - first) - h
  }

  /** An unpinned, unreferenced frame within reach is found (or an
    * earlier victim is). */
  lemma {:induction false} ReachUnreferenced(fs: seq<FT.Frame>, first: nat, max: nat, hand: nat, steps: nat, k: nat)
    requires ScanBounds(fs, first, max, hand) && first <= k < max - 1
    requires !Pinned(fs[k]) && !Referenced(fs[k])
    requires steps > Dist(first, max, Norm(first, max, hand), k)
    ensures Scan(fs, first, max, hand, steps).victim.Some?
    decreases steps
  {
    var h := Norm(first, max, hand);
    if h != k && Pinned(fs[h]) {
      ReachUnreferenced(fs, first, max, h + 1, steps - 1, k);
    } else if h != k && Referenced(fs[h]) {
      var f := Cleared(fs[h]);
      ReachUnreferenced(fs[h := f], first, max, h + 1, steps - 1, k);
    }
  }

  /** An unpinned but referenced frame gets its second chance on the first
    * visit and is found on the next, a lap later. */
  lemma {:induction false} ReachReferenced(fs: seq<FT.Frame>, first: nat, max: nat, hand: nat, steps: nat, k: nat)
    requires ScanBounds(fs, first, max, hand) && first <= k < max - 1
    requires !Pinned(fs[k])
    requires steps > Dist(first, max, Norm(first, max, hand), k) + (max - 1 - first)
    ensures Scan(fs, first, max, hand, steps).victim.Some?
    decreases steps
  {
    var h := Norm(first, max, hand);
    if !Referenced(fs[h]) && !Pinned(fs[h]) {
    } else if Pinned(fs[h]) {
      ReachReferenced(fs, first, max, h + 1, steps - 1, k);
    } else {
      var f := Cleared(fs[h]);
      if h == k {
        ReachUnreferenced(fs[h := f], first, max, h + 1, steps - 1, k);
      } else {
        ReachReferenced(fs[h := f], first, max, h + 1, steps - 1, k);
      }
    }
  }

  /** The number of iterations of the scan loop: j runs from the first
    * available frame up to twice max. */
  function ScanSteps(first: nat, max: nat): (n: nat)
    ensures first + 1 < max ==> n >= 2 * (max - 1 - first)
  {
    if 2 * max > first then 2 * max - first else 0
  }

  /** Two laps suffice: whenever some frame in the scanned range is not
    * pinned, try_swap_out's loop finds a victim. */
  lemma ScanFindsVictim(fs: seq<FT.Frame>, first: nat, max: nat, hand: nat, k: nat)
    requires ScanBounds(fs, first, max, hand) && first <= k < max - 1 && !Pinned(fs[k])
    ensures Scan(fs, first, max, hand, ScanSteps(first, max)).victim.Some?
  {
    ReachReferenced(fs, first, max, hand, ScanSteps(first, max), k);
  }

  /** If every frame in the scanned range is pinned, the scan finds no
    * victim and changes nothing: try_swap_out fails with
    * seL4_NotEnoughMemory. */
  lemma {:induction false} AllPinnedNoVictim(fs: seq<FT.Frame>, first: nat, max: nat, hand: nat, steps: nat)
    requires ScanBounds(fs, first, max, hand)
    requires forall k :: first <= k < max - 1 ==> Pinned(fs[k])
    ensures var r := Scan(fs, first, max, hand, steps);
      r.victim.None? && r.frames == fs && r.unmapped == []
    decreases steps
  {
    if steps > 0 {
      AllPinnedNoVictim(fs, first, max, Norm(first, max, hand) + 1, steps - 1);
    }
  }

  /** A victim exists exactly when some frame in the scanned range is not
    * pinned. */
  lemma ScanVictimIff(fs: seq<FT.Frame>, first: nat, max: nat, hand: nat)
    requires ScanBounds(fs, first, max, hand)
    ensures Scan(fs, first, max, hand, ScanSteps(first, max)).victim.Some? <==>
            exists k :: first <= k < max - 1 && !Pinned(fs[k])
  {
    if k :| first <= k < max - 1 && !Pinned(fs[k]) {
      ScanFindsVictim(fs, first, max, hand, k);
    } else {
      AllPinnedNoVictim(fs, first, max, hand, ScanSteps(first, max));
    }
  }

  // ---------------------------------------------------------------
  // The swap file
  // ---------------------------------------------------------------

  /** A slot of the swap file: on the free list with the number of the
    * next free slot, or holding a page that was swapped out. */
  datatype Slot = Free(next: nat) | Held(page: Page)

  /** `l` is a free list in `slots`: each entry is a free slot below
    * `tail` naming the next entry (the last names `tail`), and no slot is
    * on it twice. */
  ghost predicate FreeChain(slots: map<nat, Slot>, l: seq<nat>, tail: nat)
    decreases |l|
  {
    l == [] ||
    (l[0] < tail && l[0] in slots && slots[l[0]] == Free(if |l| > 1 then l[1] else tail) &&
     l[0] !in l[1..] && FreeChain(slots, l[1..], tail))
  }

  /** The first slot of a free list, `tail` for the empty list. */
  function Head(l: seq<nat>, tail: nat): nat
  {
    if l == [] then tail else l[0]
  }

  /** Writing a slot that is not on the list keeps the list. */
  lemma {:induction false} ChainUpdate(slots: map<nat, Slot>, l: seq<nat>, tail: nat, s: nat, v: Slot)
    requires FreeChain(slots, l, tail) && s !in l
    ensures FreeChain(slots[s := v], l, tail)
    decreases |l|
  {
    if l != [] {
      ChainUpdate(slots, l[1..], tail, s, v);
    }
  }

  /** Pushing a slot below `tail` that is not on the list, with the old
    * head written into it, gives a longer list. */
  lemma ChainPush(slots: map<nat, Slot>, l: seq<nat>, tail: nat, s: nat)
    requires FreeChain(slots, l, tail) && s !in l && s < tail
    ensures FreeChain(slots[s := Free(Head(l, tail))], [s] + l, tail)
  {
    ChainUpdate(slots, l, tail, s, Free(Head(l, tail)));
    assert ([s] + l)[1..] == l;
  }

  /** Overwriting the head of a free list and then putting it back on the
    * list restores the file. */
  lemma ChainRestore(slots: map<nat, Slot>, l: seq<nat>, tail: nat, v: Slot)
    requires FreeChain(slots, l, tail) && l != []
    ensures slots[l[0] := v][l[0] := Free(Head(l[1..], tail))] == slots
    ensures [l[0]] + l[1..] == l
  {
  }

  /** Every slot on a free list lies below `tail`. */
  lemma {:induction false} ChainBelow(slots: map<nat, Slot>, l: seq<nat>, tail: nat, s: nat)
    requires FreeChain(slots, l, tail) && s in l
    ensures s < tail && s in slots && slots[s].Free?
    decreases |l|
  {
    if l[0] != s {
      ChainBelow(slots, l[1..], tail, s);
    }
  }

  /** What try_swap_out tells the page table of the evicted page's owner:
    * the frame, its virtual address and owner's pid, and the value stored
    * in its page-table entry, the page's offset in the swap file plus
    * one (so that it is never zero). */
  datatype Eviction = Eviction(frame: nat, vaddr: Word, pid: bv16, marker: nat)

  /** The page-table value for a page in `slot`: its file offset plus one.
    * load_page recovers the slot from it. */
  function Marker(slot: nat): (m: nat)
    ensures m >= 1 && (m - 1) % PAGE_SIZE == 0 && (m - 1) / PAGE_SIZE == slot
  {
    slot * PAGE_SIZE + 1
  }

  /** Every frame on the frame table's free list is pinned, so the scan
    * never picks one as a victim. */
  ghost predicate FreePinned(ft: FT.FrameTable)
    reads ft, ft.frames
  {
    AllPinned(ft.frames[..], ft.untypedList)
  }

  /** Every frame named in `l` is pinned. */
  ghost predicate AllPinned(fs: seq<FT.Frame>, l: seq<int>)
    decreases |l|
  {
    l == [] || (0 <= l[0] < |fs| && Pinned(fs[l[0]]) && AllPinned(fs, l[1..]))
  }

  /** An unpinned frame is not on a list of pinned frames. */
  lemma {:induction false} UnpinnedNotIn(fs: seq<FT.Frame>, l: seq<int>, k: nat)
    requires AllPinned(fs, l) && k < |fs| && !Pinned(fs[k])
    ensures k !in l
    decreases |l|
  {
    if l != [] {
      UnpinnedNotIn(fs, l[1..], k);
    }
  }

  /** Rewriting a frame keeps a list of pinned frames pinned when the
    * frame is not on it or stays pinned. */
  lemma {:induction false} PinnedUpdate(fs: seq<FT.Frame>, l: seq<int>, k: nat, g: FT.Frame)
    requires AllPinned(fs, l) && k < |fs| && (k !in l || Pinned(g))
    ensures AllPinned(fs[k := g], l)
    decreases |l|
  {
    if l != [] {
      PinnedUpdate(fs, l[1..], k, g);
    }
  }

  /** One iteration of try_swap_out's scan loop: the hand wraps at
    * max - 1; a pinned frame is passed over, a referenced one loses its
    * reference bit, and otherwise the frame under the hand is the
    * victim. */
  method Tick(ft: FT.FrameTable, first: nat, max: nat, hand: nat) returns (victim: bool, cleared: bool, hand': nat)
    requires ft.Valid() && first == ft.firstAvailable && max == ft.max
    requires ScanBounds(ft.frames[..], first, max, hand) && FreePinned(ft)
    modifies ft.frames
    ensures ft.Valid() && ScanBounds(ft.frames[..], first, max, hand') && FreePinned(ft)
    ensures var h := Norm(first, max, hand);
      var fs := old(ft.frames[..]);
      victim == (!Pinned(fs[h]) && !Referenced(fs[h])) && cleared == (!Pinned(fs[h]) && Referenced(fs[h])) &&
      hand' == (if victim then h else h + 1) &&
      ft.frames[..] == (if cleared then fs[h := Cleared(fs[h])] else fs)
  {
    hand' := hand;
    if hand' == max - 1 {
      hand' := first;
    }
    var f := ft.frames[hand'];
    victim, cleared := false, false;
    if !Pinned(f) {
      if Referenced(f) {
        var g := Cleared(f);
        UnpinnedNotIn(ft.frames[..], ft.untypedList, hand');
        PinnedUpdate(ft.frames[..], ft.untypedList, hand', g);
        FT.ChainFrame(ft.frames[..], ft.untypedList, hand', g);
        ft.frames[hand'] := g;
        cleared := true;
      } else {
        return true, false, hand';
      }
    }
    hand' := hand' + 1;
  }

  /** The clock scan of try_swap_out over the frame table from `hand`:
    * clears the reference bit of each referenced frame it passes and stops
    * at the victim, with the hand on it. */
  method ScanFrames(ft: FT.FrameTable, hand: nat) returns (victim: Option<nat>, unmapped: seq<nat>, hand': nat)
    requires ft.Valid() && ft.firstAvailable + 1 < ft.max
    requires ScanBounds(ft.frames[..], ft.firstAvailable, ft.max, hand) && FreePinned(ft)
    modifies ft.frames
    ensures ft.Valid() && FreePinned(ft)
    ensures Scan(old(ft.frames[..]), ft.firstAvailable, ft.max, hand, ScanSteps(ft.firstAvailable, ft.max)) ==
            ScanResult(victim, if victim.Some? then hand' + 1 else hand', ft.frames[..], unmapped)
    ensures victim.Some? ==> victim.value == hand'
  {
    var first, max := ft.firstAvailable, ft.max;
    ghost var r0 := Scan(ft.frames[..], first, max, hand, ScanSteps(first, max));
    var j := first;
    var size := ScanSteps(first, max) + first;
    unmapped, victim, hand' := [], None, hand;
    while j < size
      invariant first <= j <= size
      invariant ft.Valid() && ScanBounds(ft.frames[..], first, max, hand') && FreePinned(ft)
      invariant r0 == Prefix(unmapped, Scan(ft.frames[..], first, max, hand', size - j))
    {
      ghost var fs := ft.frames[..];
      ghost var hand0 := hand';
      var h := Norm(first, max, hand');
      var found, cleared;
      found, cleared, hand' := Tick(ft, first, max, hand');
      ScanTick(r0, unmapped, fs, ft.frames[..], first, max, hand0, size - j, found, cleared, hand');
      if found {
        victim := Some(hand');
        break;
      }
      if cleared {
        unmapped := unmapped + [h];
      }
      j := j + 1;
    }
    assert unmapped + [] == unmapped;
  }

  class SwapFile {
    var header: nat
    var tail: nat
    var clockHand: nat
    var slots: map<nat, Slot>
    /** The free list from `header` on, ending at `tail`. */
    ghost var freeList: seq<nat>

    /** The free list is threaded through the file from `header` to
      * `tail`. */
    ghost predicate Linked()
      reads this
    {
      header == Head(freeList, tail) && FreeChain(slots, freeList, tail)
    }

    /** Every slot below `tail` that is not free, except `slot`, holds a
      * page. */
    ghost predicate HeldExcept(slot: int)
      reads this
    {
      forall s :: 0 <= s < tail && s !in freeList && s != slot ==> s in slots && slots[s].Held?
    }

    ghost predicate Valid()
      reads this
    {
      Linked() && HeldExcept(-1)
    }

    /** Below `tail`, a slot holds a page exactly when it is not on the
      * free list. */
    lemma HeldIffOffList(s: nat)
      requires Valid() && s < tail
      ensures s in slots && (slots[s].Held? <==> s !in freeList)
    {
      if s in freeList {
        ChainBelow(slots, freeList, tail, s);
      }
    }

    /** The statically zeroed header and tail: an empty file. */
    constructor ()
      ensures Valid() && header == 0 && tail == 0 && slots == map[] && clockHand == 0
    {
      header, tail, clockHand, slots := 0, 0, 0, map[];
      freeList := [];
    }

    /** initialize_swapping_file: the hand starts at the first frame that
      * is not part of the frame table itself. */
    method Initialize(first: nat)
      modifies this
      ensures clockHand == first
      ensures header == old(header) && tail == old(tail) && slots == old(slots) && freeList == old(freeList)
    {
      clockHand := first;
    }

    /** The slot allocation of try_swap_out: the head of the free list, or
      * a new slot at the end of the file when the list is empty. Until a
      * page is written to it, the slot is the one not holding a page. */
    method AllocSlot() returns (slot: nat)
      requires Valid()
      modifies this
      ensures Linked() && HeldExcept(slot)
      ensures slot == old(header) && slots == old(slots) && clockHand == old(clockHand)
      ensures slot < tail && slot !in freeList
      ensures old(header) == old(tail) ==> tail == old(tail) + 1 && freeList == []
      ensures old(header) != old(tail) ==>
        tail == old(tail) && [slot] + freeList == old(freeList)
    {
      slot := header;
      if header == tail {
        tail := tail + 1;
        header := header + 1;
      } else {
        header := slots[header].next;
        assert [slot] + freeList[1..] == freeList;
        freeList := freeList[1..];
      }
    }

    /** VOP_WRITE of a page into the allocated slot. */
    method WritePage(slot: nat, page: Page)
      requires Linked() && HeldExcept(slot) && slot < tail && slot !in freeList
      modifies this
      ensures Valid()
      ensures slots == old(slots)[slot := Held(page)]
      ensures header == old(header) && tail == old(tail) && freeList == old(freeList)
      ensures clockHand == old(clockHand)
    {
      ChainUpdate(slots, freeList, tail, slot, Held(page));
      slots := slots[slot := Held(page)];
    }

    /** load_page: `offset` is what the page table records, the file offset
      * plus one. The page is read back and its slot pushed on the free
      * list, so the next eviction reuses it. */
    method LoadPage(offset: nat) returns (page: Page)
      requires Valid()
      requires offset >= 1 && (offset - 1) % PAGE_SIZE == 0
      requires var slot := (offset - 1) / PAGE_SIZE;
        slot < tail && slot in slots && slots[slot].Held?
      modifies this
      ensures Valid()
      ensures var slot := (offset - 1) / PAGE_SIZE;
        old(slots)[slot] == Held(page) &&
        header == slot && freeList == [slot] + old(freeList) && tail == old(tail) &&
        slots == old(slots)[slot := Free(old(header))]
      ensures clockHand == old(clockHand)
    {
      var fileOffset := offset - 1;
      var slot := fileOffset / PAGE_SIZE;
      HeldIffOffList(slot);
      page := slots[slot].page;
      var tmp := header;
      ChainPush(slots, freeList, tail, slot);
      header := slot;
      slots := slots[slot := Free(tmp)];
      freeList := [slot] + freeList;
    }

    /** try_swap_out: a clock scan for a victim frame, whose page goes to
      * the head of the swap file's free list (or a new slot at its end)
      * and whose frame is freed. Without a victim, nothing but the
      * reference bits and the hand changes, and the error is
      * seL4_NotEnoughMemory. */
    method TrySwapOut(ft: FT.FrameTable) returns (err: int, evicted: Option<Eviction>, unmapped: seq<nat>)
      requires Valid() && ft.Valid() && FreePinned(ft) && ft.firstAvailable + 1 < ft.max
      requires ScanBounds(ft.frames[..], ft.firstAvailable, ft.max, clockHand)
      modifies this, ft, ft.frames
      ensures Valid() && ft.Valid() && FreePinned(ft)
      ensures ft.firstAvailable == old(ft.firstAvailable) && ft.max == old(ft.max)
      ensures ft.frames == old(ft.frames) && ft.data == old(ft.data)
      ensures ScanBounds(ft.frames[..], ft.firstAvailable, ft.max, clockHand)
      ensures evicted.Some? ==> evicted.value.frame < ft.data.Length
      ensures var r := Scan(old(ft.frames[..]), ft.firstAvailable, ft.max, old(clockHand),
                            ScanSteps(ft.firstAvailable, ft.max));
        unmapped == r.unmapped && (err == SEL4_NO_ERROR <==> r.victim.Some?) &&
        (r.victim.None? ==>
           err == SEL4_NOT_ENOUGH_MEMORY && evicted == None && clockHand == r.hand &&
           ft.frames[..] == r.frames && ft.untypedList == old(ft.untypedList) &&
           header == old(header) && tail == old(tail) && slots == old(slots)) &&
        (r.victim.Some? ==>
           var v := r.victim.value;
           v < ft.frames.Length &&
           evicted == Some(Eviction(v, r.frames[v].vaddr, FT.GetPid(r.frames[v].flag), Marker(old(header)))) &&
           clockHand == r.hand &&
           ft.frames[..] == r.frames[v := FT.Freed(r.frames[v], old(ft.untyped))] &&
           ft.untypedList == [v] + old(ft.untypedList) &&
           slots == old(slots)[old(header) := Held(old(ft.data[v]))] &&
           old(header) < tail && old(header) !in freeList &&
           (old(header) == old(tail) ==> tail == old(tail) + 1 && freeList == []) &&
           (old(header) != old(tail) ==> tail == old(tail) && [old(header)] + freeList == old(freeList)))
    {
      ScanVictim(ft.frames[..], ft.firstAvailable, ft.max, clockHand, ScanSteps(ft.firstAvailable, ft.max));
      var victim;
      victim, unmapped, clockHand := ScanFrames(ft, clockHand);
      if victim.None? {
        return SEL4_NOT_ENOUGH_MEMORY, None, unmapped;
      }
      evicted := Evict(ft, victim.value);
      err := SEL4_NO_ERROR;
    }

    /** The eviction of try_swap_out: the victim's page is written to the
      * slot at the head of the free list, its page-table entry is to
      * record that slot, and the frame is freed; the hand moves past it. */
    method Evict(ft: FT.FrameTable, v: nat) returns (evicted: Option<Eviction>)
      requires Valid() && ft.Valid() && FreePinned(ft)
      requires v < ft.frames.Length && !Pinned(ft.frames[v])
      modifies this, ft, ft.frames
      ensures Valid() && ft.Valid() && FreePinned(ft)
      ensures ft.firstAvailable == old(ft.firstAvailable) && ft.max == old(ft.max)
      ensures ft.frames == old(ft.frames) && ft.data == old(ft.data)
      ensures var f := old(ft.frames[v]);
        evicted == Some(Eviction(v, f.vaddr, FT.GetPid(f.flag), Marker(old(header)))) &&
        clockHand == v + 1 &&
        ft.frames[..] == old(ft.frames[..])[v := FT.Freed(f, old(ft.untyped))] &&
        ft.untypedList == [v] + old(ft.untypedList) &&
        slots == old(slots)[old(header) := Held(old(ft.data[v]))] &&
        old(header) < tail && old(header) !in freeList &&
        (old(header) == old(tail) ==> tail == old(tail) + 1 && freeList == []) &&
        (old(header) != old(tail) ==> tail == old(tail) && [old(header)] + freeList == old(freeList))
    {
      var marker := Marker(header);
      var slot := AllocSlot();
      var f := ft.frames[v];
      evicted := Some(Eviction(v, f.vaddr, FT.GetPid(f.flag), marker));
      WritePage(slot, ft.data[v]);
      ghost var head := ft.untyped;
      ghost var l := ft.untypedList;
      UnpinnedNotIn(ft.frames[..], l, v);
      FT.FreedIsPinnedUntyped(f, head);
      PinnedUpdate(ft.frames[..], l, v, FT.Freed(f, head));
      var halted := ft.FrameFree(v);
      assert ([v] + l)[1..] == l;
      clockHand := v + 1;
    }
  }

  /** A page swapped out and then loaded back: load_page returns what was
    * in the frame, and the free list is as it was before, the slot back
    * at its head. */
  method EvictThenLoad(sf: SwapFile, ft: FT.FrameTable) returns (evicted: Option<Eviction>, page: Option<Page>)
    requires sf.Valid() && ft.Valid() && FreePinned(ft) && ft.firstAvailable + 1 < ft.max
    requires ScanBounds(ft.frames[..], ft.firstAvailable, ft.max, sf.clockHand)
    modifies sf, ft, ft.frames
    ensures sf.Valid() && ft.data == old(ft.data)
    ensures evicted.Some? ==> evicted.value.frame < ft.data.Length
    ensures evicted.Some? <==> page.Some?
    ensures evicted.Some? ==>
      page.value == old(ft.data[evicted.value.frame]) &&
      sf.header == old(sf.header) && sf.tail == old(sf.tail) + (if old(sf.header) == old(sf.tail) then 1 else 0)
    ensures evicted.Some? && old(sf.header) != old(sf.tail) ==>
      sf.freeList == old(sf.freeList) && sf.slots == old(sf.slots)
  {
    var err, unmapped;
    err, evicted, unmapped := sf.TrySwapOut(ft);
    if evicted.None? {
      return None, None;
    }
    ghost var s1 := sf.slots;
    var p := sf.LoadPage(evicted.value.marker);
    page := Some(p);
    if old(sf.header) != old(sf.tail) {
      ChainRestore(old(sf.slots), old(sf.freeList), old(sf.tail), Held(p));
    }
  }
}
