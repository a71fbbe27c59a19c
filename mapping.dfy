/** sos_map_frame (mapping.c): maps one frame into a process and, while
  * the kernel reports a missing paging structure, creates that structure
  * and its shadow node, keeping every resource it takes so that a failure
  * can hand them all back. The kernel, the capability space and the
  * allocators are oracles: each round of the loop reads what they answer
  * from a `RoundAnswers` record. The calls into the shadow page table
  * (PageTable) and the frame table (FrameTable) are recorded in the
  * outcome; their effects are modelled in those modules. */
module Mapping {
  import opened Common
  import PT = PageTable

  /** The rounds of paging-structure creation: one per missing level. */
  const MAPPING_SLOTS: nat := 3

  /** The entry.frame of a new paging structure: -1 in a seL4_Word. */
  const NO_FRAME: Word := 0xFFFF_FFFF_FFFF_FFFF

  /** The level seL4_MappingFailedLookupLevel reports as missing. */
  datatype Missing = NoPT | NoPD | NoPUD

  /** The shadow level created for a missing structure. */
  function LevelOf(m: Missing): (level: int)
    ensures PT.ValidLevel(level)
  {
    match m
    case NoPT => 4
    case NoPD => 3
    case NoPUD => 2
  }

  /** The frames frame_n_alloc is asked for, for the shadow node of that
    * level: a leaf needs no cap array. */
  function RunFrames(m: Missing): (n: nat)
    ensures n >= 2 && (n == 2 <==> LevelOf(m) == 4)
  {
    if m.NoPT? then 2 else PT.PAGE_TABLE_FRAME_SIZE
  }

  /** What the outside world answers during one round: the missing level,
    * ut_alloc_4k_untyped (0 is NULL), try_swap_out, the second
    * ut_alloc_4k_untyped, cspace_alloc_slot (0 is seL4_CapNull), the
    * retype-and-map call, frame_n_alloc (-1 on failure) with the address
    * of the run, and the retried seL4_ARM_Page_Map. */
  datatype RoundAnswers = RoundAnswers(
    missing: Missing, ut: Word, swapErr: int, utRetry: Word,
    slot: Word, retypeErr: int, run: int, tableAddr: Word, remapErr: int)

  /** A call of insert_page_table_entry. */
  datatype Insertion = Insertion(level: int, entry: PT.Entry, vaddr: Word)

  /** One round: whether try_swap_out ran, the untyped object obtained,
    * what goes into ut_array[i], slot_array[i] and frame_array[i], how
    * many frames frame_n_alloc was asked for (0 when it was not called),
    * the shadow insertion made, the error value afterwards and whether
    * the round jumps to the clean-up. */
  datatype Step = Step(
    swapped: bool, obtained: Word, ut: Word, slot: Word, run: int, request: nat,
    insert: Option<Insertion>, err: int, cleanup: bool)

  /** A round as written. On a failed slot allocation the untyped object
    * is not yet in ut_array, and on a failed frame_n_alloc the error is
    * whatever the retype returned, possibly seL4_NoError. A failure of
    * try_swap_out lands in a shadowing local, so the outer error stays
    * seL4_FailedLookup. */
  function StepAsWritten(r: RoundAnswers, vaddr: Word): (s: Step)
    ensures s.obtained == (if r.ut != 0 then r.ut else if r.swapErr != 0 then 0 else r.utRetry)
    ensures s.ut == (if r.slot == 0 then 0 else s.obtained)
    ensures s.cleanup <==> s.obtained == 0 || r.slot == 0 || r.run == -1
    ensures s.obtained != 0 && r.slot != 0 && r.run == -1 ==> s.err == r.retypeErr
  {
    var swapped := r.ut == 0;
    var ut := if !swapped then r.ut else if r.swapErr != 0 then 0 else r.utRetry;
    if ut == 0 then Step(swapped, 0, 0, 0, -1, 0, None, SEL4_FAILED_LOOKUP, true)
    else if r.slot == 0 then Step(swapped, ut, 0, 0, -1, 0, None, -1, true)
    else if r.run == -1 then Step(swapped, ut, ut, r.slot, -1, RunFrames(r.missing), None, r.retypeErr, true)
    else
      var e := PT.Entry(r.slot, r.tableAddr, ut, NO_FRAME);
      Step(swapped, ut, ut, r.slot, r.run, RunFrames(r.missing), Some(Insertion(LevelOf(r.missing), e, vaddr)),
           if r.retypeErr == 0 then r.remapErr else r.retypeErr, false)
  }

  /** A round as evidently intended: the untyped object is recorded as
    * soon as it is obtained, and a failed frame_n_alloc is reported as
    * seL4_NotEnoughMemory. */
  function RoundStep(r: RoundAnswers, vaddr: Word): (s: Step)
    ensures s.swapped <==> r.ut == 0
    ensures s.ut == s.obtained
    ensures s.obtained == (if r.ut != 0 then r.ut else if r.swapErr != 0 then 0 else r.utRetry)
    ensures s.cleanup ==> s.err != SEL4_NO_ERROR && s.insert.None?
    ensures s.cleanup <==> s.obtained == 0 || r.slot == 0 || r.run == -1
    ensures s.insert.Some? <==> !s.cleanup
    ensures s.request == (if s.obtained != 0 && r.slot != 0 then RunFrames(r.missing) else 0)
    ensures s.slot == (if s.obtained == 0 then 0 else r.slot)
    ensures s.run == (if s.cleanup then -1 else r.run)
    ensures s.insert.Some? ==>
      s.insert.value == Insertion(LevelOf(r.missing), PT.Entry(r.slot, r.tableAddr, s.obtained, NO_FRAME), vaddr)
    ensures !s.cleanup ==> s.err == (if r.retypeErr == 0 then r.remapErr else r.retypeErr)
  {
    var swapped := r.ut == 0;
    var ut := if !swapped then r.ut else if r.swapErr != 0 then 0 else r.utRetry;
    if ut == 0 then Step(swapped, 0, 0, 0, -1, 0, None, SEL4_FAILED_LOOKUP, true)
    else if r.slot == 0 then Step(swapped, ut, ut, 0, -1, 0, None, -1, true)
    else if r.run == -1 then Step(swapped, ut, ut, r.slot, -1, RunFrames(r.missing), None, SEL4_NOT_ENOUGH_MEMORY, true)
    else
      var e := PT.Entry(r.slot, r.tableAddr, ut, NO_FRAME);
      Step(swapped, ut, ut, r.slot, r.run, RunFrames(r.missing), Some(Insertion(LevelOf(r.missing), e, vaddr)),
           if r.retypeErr == 0 then r.remapErr else r.retypeErr, false)
  }

  /** Where slot and run allocation succeed, the two rounds agree. */
  lemma StepAgrees(r: RoundAnswers, vaddr: Word)
    requires r.slot != 0 && r.run != -1
    ensures StepAsWritten(r, vaddr) == RoundStep(r, vaddr)
  {
  }

  /** As written, an untyped object obtained in a round whose slot
    * allocation fails is in no array, so the clean-up never frees it. */
  lemma StepAsWrittenLeaksUntyped()
    ensures var s := StepAsWritten(RoundAnswers(NoPT, 0x1000, 0, 0, 0, 0, 0, 0, 0), 0);
      s.cleanup && s.obtained == 0x1000 && s.ut == 0
  {
  }

  /** As written, a round whose frame_n_alloc fails after a successful
    * retype jumps to the clean-up with seL4_NoError: the caller is told the
    * frame is mapped although nothing was. */
  lemma StepAsWrittenReportsSuccess()
    ensures var s := StepAsWritten(RoundAnswers(NoPD, 0x1000, 0, 0, 7, 0, -1, 0, 0), 0);
      s.cleanup && s.err == SEL4_NO_ERROR && s.insert.None?
  {
  }

  /** The frame, its copied capability and the pid recorded once the
    * mapping succeeds: update_level_4_page_table_entry and SET_PID. */
  datatype Mapped = Mapped(frame: nat, frameCap: Word, pid: bv16)

  /** Paging-structure resources, in the order the rounds took them. */
  datatype Resources = Resources(uts: seq<Word>, runs: seq<int>, slots: seq<Word>)

  const NONE: Resources := Resources([], [], [])

  /** What sos_map_frame did: its result, the shadow insertions, the leaf
    * update, the number of try_swap_out calls, the resources the rounds
    * took and those the clean-up gave back. */
  datatype Outcome = Outcome(
    err: int, inserts: seq<Insertion>, mapped: Option<Mapped>, swaps: nat,
    acquired: Resources, released: Resources)

  /** The entries of a resource array that differ from its empty value,
    * in index order. */
  function Recorded<T(==)>(a: seq<T>, empty: T): (r: seq<T>)
    ensures |r| <= |a|
  {
    if |a| == 0 then []
    else Recorded(a[..|a| - 1], empty) + (if a[|a| - 1] != empty then [a[|a| - 1]] else [])
  }

  /** Empty entries at the end add nothing. */
  lemma {:induction false} RecordedEmptyTail<T>(a: seq<T>, i: nat, empty: T)
    requires i <= |a| && forall k :: i <= k < |a| ==> a[k] == empty
    ensures Recorded(a, empty) == Recorded(a[..i], empty)
    decreases |a|
  {
    if |a| > i {
      assert a[..|a| - 1][..i] == a[..i];
      RecordedEmptyTail(a[..|a| - 1], i, empty);
    } else {
      assert a[..i] == a;
    }
  }

  /** Filling the first entry of an empty tail appends to what is recorded. */
  lemma RecordedAt<T>(a: seq<T>, i: nat, x: T, empty: T)
    requires i < |a| && forall k :: i <= k < |a| ==> a[k] == empty
    ensures Recorded(a[i := x], empty) == Recorded(a, empty) + (if x != empty then [x] else [])
  {
    RecordedEmptyTail(a, i, empty);
    RecordedEmptyTail(a[i := x], i + 1, empty);
    assert a[i := x][..i + 1][..i] == a[..i];
  }

  /** One entry further into an array. */
  lemma RecordedNext<T>(a: seq<T>, k: nat, empty: T)
    requires k < |a|
    ensures Recorded(a[..k + 1], empty) == Recorded(a[..k], empty) + (if a[k] != empty then [a[k]] else [])
  {
    assert a[..k + 1][..k] == a[..k];
  }

  lemma RecordedNone<T>(a: seq<T>, empty: T)
    requires forall k :: 0 <= k < |a| ==> a[k] == empty
    ensures Recorded(a, empty) == []
  {
    RecordedEmptyTail(a, 0, empty);
  }

  /** The clean-up loop: every recorded untyped object is freed, every
    * recorded run handed to frame_n_free and every recorded slot deleted
    * and freed, in index order. */
  method Cleanup(utArray: array<Word>, frameArray: array<int>, slotArray: array<Word>)
    returns (released: Resources)
    requires utArray.Length == frameArray.Length == slotArray.Length == MAPPING_SLOTS
    ensures released == Resources(Recorded(utArray[..], 0), Recorded(frameArray[..], -1), Recorded(slotArray[..], 0))
  {
    released := NONE;
    var k := 0;
    while k < MAPPING_SLOTS
      invariant 0 <= k <= MAPPING_SLOTS
      invariant released == Resources(Recorded(utArray[..k], 0), Recorded(frameArray[..k], -1), Recorded(slotArray[..k], 0))
    {
      if utArray[k] != 0 {
        released := released.(uts := released.uts + [utArray[k]]);
      }
      if frameArray[k] != -1 {
        released := released.(runs := released.runs + [frameArray[k]]);
      }
      if slotArray[k] != 0 {
        released := released.(slots := released.slots + [slotArray[k]]);
      }
      RecordedNext(utArray[..], k, 0);
      RecordedNext(frameArray[..], k, -1);
      RecordedNext(slotArray[..], k, 0);
      k := k + 1;
    }
    assert utArray[..k] == utArray[..] && frameArray[..k] == frameArray[..] && slotArray[..k] == slotArray[..];
  }

  /** The resources the three arrays hold. */
  function ResourcesOf(utArray: seq<Word>, frameArray: seq<int>, slotArray: seq<Word>): Resources
  {
    Resources(Recorded(utArray, 0), Recorded(frameArray, -1), Recorded(slotArray, 0))
  }

  /** `a` and what the allocators handed out in round `s`. */
  function Grow(a: Resources, s: Step): Resources
  {
    Resources(a.uts + (if s.ut != 0 then [s.ut] else []),
              a.runs + (if s.run != -1 then [s.run] else []),
              a.slots + (if s.slot != 0 then [s.slot] else []))
  }

  /** What the rounds have done so far: the error value, the shadow
    * insertions, the try_swap_out calls, the resources taken, and whether
    * a round jumped to the clean-up. */
  datatype Progress = Progress(err: int, inserts: seq<Insertion>, swaps: nat, acquired: Resources,
                               cleanup: bool)

  /** `p` followed by round `s`. */
  function After(p: Progress, s: Step): Progress
  {
    Progress(s.err, p.inserts + (if s.insert.Some? then [s.insert.value] else []),
             p.swaps + (if s.swapped then 1 else 0), Grow(p.acquired, s), s.cleanup)
  }

  /** The rounds of sos_map_frame's loop from round i on: a round runs
    * while fewer than MAPPING_SLOTS have, the error is still
    * seL4_FailedLookup and no round has jumped to the clean-up. */
  function Rounds(rounds: seq<RoundAnswers>, aligned: Word, i: nat, p: Progress): Progress
    requires |rounds| >= MAPPING_SLOTS && i <= MAPPING_SLOTS
    decreases MAPPING_SLOTS - i
  {
    if i == MAPPING_SLOTS || p.err != SEL4_FAILED_LOOKUP || p.cleanup then p
    else Rounds(rounds, aligned, i + 1, After(p, RoundStep(rounds[i], aligned)))
  }

  /** The state every round keeps: each insertion is at the aligned
    * address and at a level whose run size matches it, each inserted node
    * has its run recorded for the clean-up, and its untyped object and slot
    * too; a jump to the clean-up always carries an error. */
  ghost predicate Consistent(p: Progress, aligned: Word)
  {
    (forall k :: 0 <= k < |p.inserts| ==> p.inserts[k].vaddr == aligned && PT.ValidLevel(p.inserts[k].level)) &&
    |p.acquired.runs| == |p.inserts| <= |p.acquired.uts| && |p.inserts| <= |p.acquired.slots| &&
    (p.cleanup ==> p.err != SEL4_NO_ERROR)
  }

  /** Each round keeps Consistent, and adds at most one insertion and one
    * try_swap_out call. */
  lemma {:induction false} RoundsConsistent(rounds: seq<RoundAnswers>, aligned: Word, i: nat, p: Progress)
    requires |rounds| >= MAPPING_SLOTS && i <= MAPPING_SLOTS && Consistent(p, aligned)
    ensures var q := Rounds(rounds, aligned, i, p);
      Consistent(q, aligned) &&
      |p.inserts| <= |q.inserts| <= |p.inserts| + (MAPPING_SLOTS - i) &&
      p.swaps <= q.swaps <= p.swaps + (MAPPING_SLOTS - i) &&
      q.inserts[..|p.inserts|] == p.inserts
    decreases MAPPING_SLOTS - i
  {
    if !(i == MAPPING_SLOTS || p.err != SEL4_FAILED_LOOKUP || p.cleanup) {
      var s := RoundStep(rounds[i], aligned);
      var p1 := After(p, s);
      assert Consistent(p1, aligned);
      RoundsConsistent(rounds, aligned, i + 1, p1);
      var q := Rounds(rounds, aligned, i + 1, p1);
      assert q.inserts[..|p.inserts|] == q.inserts[..|p1.inserts|][..|p.inserts|];
    }
  }

  /** When the first seL4_ARM_Page_Map does not report a missing paging
    * structure, no round runs. */
  lemma NoRounds(rounds: seq<RoundAnswers>, aligned: Word, p: Progress)
    requires |rounds| >= MAPPING_SLOTS && p.err != SEL4_FAILED_LOOKUP
    ensures Rounds(rounds, aligned, 0, p) == p
  {
  }

  /** A run of rounds ends with an error other than seL4_FailedLookup,
    * with a jump to the clean-up, or after MAPPING_SLOTS rounds. */
  lemma {:induction false} RoundsStop(rounds: seq<RoundAnswers>, aligned: Word, i: nat, p: Progress)
    requires |rounds| >= MAPPING_SLOTS && i <= MAPPING_SLOTS
    ensures var q := Rounds(rounds, aligned, i, p);
      q.err != SEL4_FAILED_LOOKUP || q.cleanup || |q.inserts| == |p.inserts| + (MAPPING_SLOTS - i)
    decreases MAPPING_SLOTS - i
  {
    if !(i == MAPPING_SLOTS || p.err != SEL4_FAILED_LOOKUP || p.cleanup) {
      var p1 := After(p, RoundStep(rounds[i], aligned));
      RoundsStop(rounds, aligned, i + 1, p1);
    }
  }

  /** A round that creates a shadow node asks frame_n_alloc for two frames
    * exactly when the node is a leaf (level 4). */
  lemma RequestMatchesLevel(r: RoundAnswers, vaddr: Word)
    ensures var s := RoundStep(r, vaddr);
      s.insert.Some? ==> (s.request == 2 <==> s.insert.value.level == 4)
  {
  }

  /** ut_array[i], slot_array[i] and frame_array[i] of a round. */
  method Record(utArray: array<Word>, frameArray: array<int>, slotArray: array<Word>, i: nat, s: Step)
    requires utArray.Length == frameArray.Length == slotArray.Length == MAPPING_SLOTS
    requires utArray != slotArray && i < MAPPING_SLOTS
    requires forall k :: i <= k < MAPPING_SLOTS ==> utArray[k] == 0 && frameArray[k] == -1 && slotArray[k] == 0
    modifies utArray, frameArray, slotArray
    ensures forall k :: i < k < MAPPING_SLOTS ==> utArray[k] == 0 && frameArray[k] == -1 && slotArray[k] == 0
    ensures ResourcesOf(utArray[..], frameArray[..], slotArray[..])
      == Grow(old(ResourcesOf(utArray[..], frameArray[..], slotArray[..])), s)
  {
    RecordedAt(utArray[..], i, s.ut, 0);
    RecordedAt(frameArray[..], i, s.run, -1);
    RecordedAt(slotArray[..], i, s.slot, 0);
    utArray[i] := s.ut;
    slotArray[i] := s.slot;
    frameArray[i] := s.run;
  }

  /** sos_map_frame with the rounds as evidently intended. `frameCap` is
    * the slot the frame's capability is copied into, `firstErr` the result
    * of the first seL4_ARM_Page_Map, `rounds[i]` the answers of round i. */
  method MapFrame(frame: int, vaddr: Word, pid: bv16, frameCap: Word, firstErr: int,
                  rounds: seq<RoundAnswers>)
    returns (o: Outcome)
    requires |rounds| >= MAPPING_SLOTS
    ensures frame < 0 ==> o == Outcome(SEL4_NOT_ENOUGH_MEMORY, [], None, 0, NONE, NONE)
    ensures forall k :: 0 <= k < |o.inserts| ==> o.inserts[k].vaddr == PageAlign(vaddr)
    ensures |o.inserts| <= MAPPING_SLOTS && o.swaps <= MAPPING_SLOTS
    ensures o.err == SEL4_NO_ERROR <==> o.mapped.Some?
    ensures o.mapped.Some? ==> o.mapped.value == Mapped(frame, frameCap, pid) && o.released == NONE
    ensures o.err != SEL4_NO_ERROR ==> o.released == o.acquired
    ensures frame >= 0 && firstErr != SEL4_FAILED_LOOKUP ==>
      o.inserts == [] && o.acquired == NONE && o.err == firstErr
    ensures frame >= 0 ==>
      var q := Rounds(rounds, PageAlign(vaddr), 0, Progress(firstErr, [], 0, NONE, false));
      o.err == q.err && o.inserts == q.inserts && o.swaps == q.swaps && o.acquired == q.acquired &&
      (o.mapped.Some? <==> q.err == SEL4_NO_ERROR)
  {
    if frame < 0 {
      return Outcome(SEL4_NOT_ENOUGH_MEMORY, [], None, 0, NONE, NONE);
    }
    var aligned := PageAlign(vaddr);
    var err := firstErr;
    var utArray := new Word[MAPPING_SLOTS](_ => 0);
    var frameArray := new int[MAPPING_SLOTS](_ => -1);
    var slotArray := new Word[MAPPING_SLOTS](_ => 0);
    var inserts: seq<Insertion> := [];
    var swaps := 0;
    var acquired := NONE;
    RecordedNone(utArray[..], 0);
    RecordedNone(frameArray[..], -1);
    RecordedNone(slotArray[..], 0);
    var cleanup := false;
    var i := 0;
    ghost var init := Progress(firstErr, [], 0, NONE, false);
    while i < MAPPING_SLOTS && err == SEL4_FAILED_LOOKUP && !cleanup
      invariant 0 <= i <= MAPPING_SLOTS
      invariant forall k :: i <= k < MAPPING_SLOTS ==> utArray[k] == 0 && frameArray[k] == -1 && slotArray[k] == 0
      invariant acquired == ResourcesOf(utArray[..], frameArray[..], slotArray[..])
      invariant Rounds(rounds, aligned, i, Progress(err, inserts, swaps, acquired, cleanup))
             == Rounds(rounds, aligned, 0, init)
    {
      var s := RoundStep(rounds[i], aligned);
      if s.swapped {
        swaps := swaps + 1;
      }
      Record(utArray, frameArray, slotArray, i, s);
      acquired := Grow(acquired, s);
      err := s.err;
      if s.cleanup {
        cleanup := true;
      } else {
        inserts := inserts + [s.insert.value];
      }
      i := i + 1;
    }
    RoundsConsistent(rounds, aligned, 0, init);
    if !cleanup && err == SEL4_NO_ERROR {
      return Outcome(err, inserts, Some(Mapped(frame, frameCap, pid)), swaps, acquired, NONE);
    }
    var released := Cleanup(utArray, frameArray, slotArray);
    return Outcome(err, inserts, None, swaps, acquired, released);
  }
}
