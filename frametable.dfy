/** The SOS frame table (frametable.h, frametable.c): one record per 4 KiB
  * frame of untyped memory, a flag word per frame, and the "untyped" list
  * of frames that are not handed out, threaded through the `next` fields. */
module FrameTable {
  import opened Common

  /** Frame i is mapped in the server at FRAME_BASE + i * 4096. */
  const FRAME_BASE: int := 0xA0_0000_0000
  /** sizeof(frame_table_obj) on aarch64: ut pointer, int next (padded),
    * cap, uint16 flag (padded), vaddr. */
  const FRAME_RECORD_SIZE: nat := 40

  /** Bit numbers and masks of the per-frame flag word. */
  const PIN: bv16 := 3
  /** The reference bit as frametable.h defines it: bit 4, which is also
    * the lowest bit of the PID field 0xFF0. */
  const CLOCK_AS_WRITTEN: bv16 := 4
  /** The reference bit the rest of the model uses: bit 2, the one bit of
    * the low nibble that no other flag occupies. */
  const CLOCK: bv16 := 2
  const PID_MASK: bv16 := 0xFF0
  const UNTYPE_MEMORY: bv16 := 0x1
  const USED_MEMORY: bv16 := 0x3

  /** frame_table_obj: ut and frameCap are 0 for NULL / seL4_CapNull. */
  datatype Frame = Frame(ut: nat, next: int, frameCap: nat, flag: bv16, vaddr: Word)

  /** What a successful alloc_retype hands back: the untyped object and the
    * slot holding the retyped frame capability. */
  datatype Retyped = Retyped(ut: nat, frameCap: nat)

  /** The single-bit mask 1 << b. */
  function Mask(b: bv16): (m: bv16)
    requires b < 16
    ensures m != 0
  {
    1 << b
  }

  /** FRAME_GET_BIT: whether bit b of a flag word is set. */
  predicate BitSet(flag: bv16, b: bv16)
    requires b < 16
  {
    flag & Mask(b) != 0
  }

  /** FRAME_SET_BIT: bit b is set, and the only bit that may change. */
  function SetBit(flag: bv16, b: bv16): (r: bv16)
    requires b < 16
    ensures BitSet(r, b)
    ensures r ^ flag == (if BitSet(flag, b) then 0 else Mask(b))
  {
    flag | Mask(b)
  }

  /** FRAME_CLEAR_BIT: bit b is clear, and every other bit is kept. */
  function ClearBit(flag: bv16, b: bv16): (r: bv16)
    requires b < 16
    ensures !BitSet(r, b)
    ensures r | Mask(b) == flag | Mask(b)
  {
    (flag | Mask(b)) ^ Mask(b)
  }

  /** ClearBit is the macro's `flag &= ~(1 << b)`. */
  lemma ClearBitIsAndNot(flag: bv16, b: bv16)
    requires b < 16
    ensures ClearBit(flag, b) == flag & !Mask(b)
  {
  }

  /** GET_PID: the eight bits 4..11 of the flag word, moved down. */
  function GetPid(flag: bv16): (r: bv16)
    ensures r < 256
    ensures r << 4 == flag & PID_MASK
  {
    (flag & PID_MASK) >> 4
  }

  /** SET_PID as written: ORs the shifted pid into the flag word (the int
    * result is truncated to the 16-bit field) and never clears it first. */
  function SetPidAsWritten(flag: bv16, pid: bv16): (r: bv16)
    ensures r & flag == flag
    ensures r & 0xF == flag & 0xF
  {
    flag | (pid << 4)
  }

  /** SET_PID as evidently intended: replaces the PID field, leaving every
    * other bit alone. */
  function SetPid(flag: bv16, pid: bv16): (r: bv16)
    ensures r & !PID_MASK == flag & !PID_MASK
  {
    (flag & !PID_MASK) | ((pid << 4) & PID_MASK)
  }

  /** A frame that held process 1 and is handed to process 2 reads back as
    * process 3: SET_PID never clears the previous owner's bits. */
  lemma SetPidAccumulates()
    ensures GetPid(SetPidAsWritten(SetPidAsWritten(USED_MEMORY, 1), 2)) == 3
  {
  }

  /** The corrected SET_PID stores exactly the low eight bits of the pid
    * (and, by its own contract, keeps PIN, CLOCK and the memory type). */
  lemma SetPidThenGetPid(flag: bv16, pid: bv16)
    ensures GetPid(SetPid(flag, pid)) == pid & 0xFF
  {
  }

  /** With CLOCK at bit 4, the reference bit is the pid's lowest bit:
    * storing an odd pid marks the frame referenced, and the clock scan
    * clearing the bit turns process 1 into process 0. */
  lemma ClockBitAliasesPid(flag: bv16)
    ensures BitSet(flag, CLOCK_AS_WRITTEN) <==> GetPid(flag) & 1 == 1
    ensures BitSet(SetPidAsWritten(flag, 1), CLOCK_AS_WRITTEN)
    ensures GetPid(ClearBit(SetPid(0, 1), CLOCK_AS_WRITTEN)) == 0
  {
  }

  /** With the reference bit outside the PID field, clearing it (as the
    * clock scan does) never changes the owner. */
  lemma ClearClockKeepsPid(flag: bv16)
    ensures GetPid(ClearBit(flag, CLOCK)) == GetPid(flag)
  {
  }

  /** Setting the reference bit never changes the owner either. */
  lemma SetClockKeepsPid(flag: bv16)
    ensures GetPid(SetBit(flag, CLOCK)) == GetPid(flag)
  {
  }

  /** Number of frames the table itself occupies (n_pages). */
  function TablePages(nFrames: nat): (r: nat)
    ensures r * PAGE_SIZE >= nFrames * FRAME_RECORD_SIZE
    ensures r == 0 || (r - 1) * PAGE_SIZE < nFrames * FRAME_RECORD_SIZE
  {
    (nFrames * FRAME_RECORD_SIZE + PAGE_SIZE - 1) / PAGE_SIZE
  }

  /** Whenever there are at least two frames, the table fits in a strict
    * prefix of them, so at least one frame is left for the untyped list. */
  lemma TablePagesLeaveRoom(nFrames: nat)
    requires nFrames >= 2
    ensures 1 <= TablePages(nFrames) < nFrames
  {
    var r := TablePages(nFrames);
    assert r * PAGE_SIZE <= nFrames * FRAME_RECORD_SIZE + PAGE_SIZE - 1;
    assert nFrames * FRAME_RECORD_SIZE + PAGE_SIZE - 1 < nFrames * PAGE_SIZE;
  }

  /** The indices lo, lo + 1, ..., hi - 1. */
  function Range(lo: int, hi: int): (r: seq<int>)
    requires lo <= hi
    ensures |r| == hi - lo && forall k :: 0 <= k < |r| ==> r[k] == lo + k
  {
    seq(hi - lo, k => lo + k)
  }

  function Reverse(s: seq<int>): (r: seq<int>)
    ensures |r| == |s|
    ensures forall i :: 0 <= i < |s| ==> r[i] == s[|s| - 1 - i]
  {
    if s == [] then [] else Reverse(s[1..]) + [s[0]]
  }

  /** Reversing keeps the same elements. */
  lemma {:induction false} ReverseSameElements(s: seq<int>)
    ensures multiset(Reverse(s)) == multiset(s)
  {
    if s != [] {
      ReverseSameElements(s[1..]);
      assert s == [s[0]] + s[1..];
    }
  }

  /** Pushing a prefix back in reverse keeps exactly the same frames on the
    * list: a failed frame_n_alloc loses no frame. */
  lemma ReversePrefixSameFrames(s: seq<int>, k: nat)
    requires k <= |s|
    ensures multiset(Reverse(s[..k]) + s[k..]) == multiset(s)
  {
    ReverseSameElements(s[..k]);
    assert s == s[..k] + s[k..];
  }


  /** `l` is an untyped list of the records `fs`: each entry names a
    * record and links to the next, no entry repeats, and the last entry
    * links to itself. */
  ghost predicate UntypedChain(fs: seq<Frame>, l: seq<int>)
    decreases |l|
  {
    |l| >= 1 && 0 <= l[0] < |fs| &&
    if |l| == 1 then fs[l[0]].next == l[0]
    else fs[l[0]].next == l[1] && l[0] !in l[1..] && UntypedChain(fs, l[1..])
  }

  /** `c` is a run handed out by frame_n_alloc: each entry names a record
    * and links to the next, no entry repeats, and the last links to -1. */
  ghost predicate Run(fs: seq<Frame>, c: seq<int>)
    decreases |c|
  {
    |c| == 0 ||
    (0 <= c[0] < |fs| && c[0] !in c[1..] &&
     if |c| == 1 then fs[c[0]].next == -1
     else fs[c[0]].next == c[1] && Run(fs, c[1..]))
  }

  /** Rewriting a record that is not on the untyped list keeps the list. */
  lemma {:induction false} ChainFrame(fs: seq<Frame>, l: seq<int>, f: int, r: Frame)
    requires UntypedChain(fs, l) && 0 <= f < |fs| && f !in l
    ensures UntypedChain(fs[f := r], l)
    decreases |l|
  {
    if |l| > 1 {
      ChainFrame(fs, l[1..], f, r);
    }
  }

  /** Rewriting a record that is not in a run keeps the run. */
  lemma {:induction false} RunFrame(fs: seq<Frame>, c: seq<int>, f: int, r: Frame)
    requires Run(fs, c) && 0 <= f < |fs| && f !in c
    ensures Run(fs[f := r], c)
    decreases |c|
  {
    if |c| > 1 {
      RunFrame(fs, c[1..], f, r);
    }
  }

  /** Every entry of the untyped list names a record. */
  lemma {:induction false} ChainInRange(fs: seq<Frame>, l: seq<int>, x: int)
    requires UntypedChain(fs, l) && x in l
    ensures 0 <= x < |fs|
    decreases |l|
  {
    if x != l[0] {
      ChainInRange(fs, l[1..], x);
    }
  }

  /** Pushing a frame that is not on the list, linked to the old head. */
  lemma PushKeepsChain(fs: seq<Frame>, l: seq<int>, f: int, r: Frame)
    requires UntypedChain(fs, l) && 0 <= f < |fs| && f !in l && r.next == l[0]
    ensures UntypedChain(fs[f := r], [f] + l)
  {
    ChainFrame(fs, l, f, r);
    assert ([f] + l)[1..] == l;
  }

  /** Popping the head of a list of at least two frames, whatever the head's
    * record becomes. */
  lemma PopKeepsChain(fs: seq<Frame>, l: seq<int>, r: Frame)
    requires UntypedChain(fs, l) && |l| >= 2
    ensures UntypedChain(fs[l[0] := r], l[1..])
  {
    ChainFrame(fs, l[1..], l[0], r);
  }

  /** Taking the head off a run, whatever the head's record becomes, leaves
    * the rest a run. */
  lemma RunTail(fs: seq<Frame>, c: seq<int>, r: Frame)
    requires Run(fs, c) && |c| >= 1
    ensures Run(fs[c[0] := r], c[1..])
  {
    RunFrame(fs, c[1..], c[0], r);
  }

  /** Frames lo..hi-1 linked in index order, the last to itself, form an
    * untyped list. */
  lemma {:induction false} RangeChain(fs: seq<Frame>, lo: int, hi: int)
    requires 0 <= lo < hi <= |fs|
    requires forall j :: lo <= j < hi - 1 ==> fs[j].next == j + 1
    requires fs[hi - 1].next == hi - 1
    ensures UntypedChain(fs, Range(lo, hi))
    decreases hi - lo
  {
    if lo < hi - 1 {
      RangeChain(fs, lo + 1, hi);
      assert Range(lo, hi)[1..] == Range(lo + 1, hi);
    }
  }

  /** No frame occurs twice on an untyped list. */
  lemma {:induction false} ChainDistinct(fs: seq<Frame>, l: seq<int>, a: int, b: int)
    requires UntypedChain(fs, l) && 0 <= a < b < |l|
    ensures l[a] != l[b]
    decreases |l|
  {
    if a == 0 {
      assert l[b] == l[1..][b - 1];
    } else {
      ChainDistinct(fs, l[1..], a - 1, b - 1);
    }
  }

  /** Linking a frame that is not in a run behind its last frame, the new
    * frame already ending in -1, gives a longer run. */
  lemma {:induction false} RunExtend(fs: seq<Frame>, c: seq<int>, last: int, f: int)
    requires Run(fs, c) && |c| > 0 && last == c[|c| - 1] && 0 <= last < |fs|
    requires 0 <= f < |fs| && f !in c && fs[f].next == -1
    ensures Run(fs[last := fs[last].(next := f)], c + [f])
    decreases |c|
  {
    if |c| == 1 {
      assert (c + [f])[1..] == [f];
    } else {
      RunExtend(fs, c[1..], last, f);
      assert (c + [f])[1..] == c[1..] + [f];
    }
  }

  /** Any prefix of an untyped list shares no frame with the rest. */
  lemma ChainSplit(fs: seq<Frame>, l: seq<int>, i: int)
    requires UntypedChain(fs, l) && 0 <= i <= |l|
    ensures Disjoint(l[..i], l[i..])
  {
    forall k | 0 <= k < i ensures l[k] !in l[i..] {
      forall m | i <= m < |l| ensures l[k] != l[m] {
        ChainDistinct(fs, l, k, m);
      }
    }
  }

  /** The address at which the server maps frame `page`. */
  function FrameVaddr(page: int): (v: Word)
    requires 0 <= page < 0x8000_0000
    ensures v % PAGE_SIZE == 0 && v >= FRAME_BASE
  {
    FRAME_BASE + page * PAGE_SIZE
  }

  /** One round of frame_n_alloc: the head `l0[i]` of what is left of the
    * untyped list `l0` was just allocated (records `fs` became `fs1`), and
    * linking the run `l0[..i]` to it gives a run one longer, while the rest
    * of the list stays an untyped list. */
  lemma ExtendStep(fs0: seq<Frame>, l0: seq<int>, fs: seq<Frame>, fs1: seq<Frame>, i: int)
    requires UntypedChain(fs0, l0) && 1 <= i < |l0| - 1
    requires Run(fs, l0[..i]) && 0 <= l0[i - 1] < |fs| && 0 <= l0[i] < |fs| == |fs1|
    requires fs1 == fs[l0[i] := fs1[l0[i]]] && fs1[l0[i]].next == -1
    requires UntypedChain(fs1, l0[i + 1..])
    ensures Run(fs1[l0[i - 1] := fs1[l0[i - 1]].(next := l0[i])], l0[..i + 1])
    ensures UntypedChain(fs1[l0[i - 1] := fs1[l0[i - 1]].(next := l0[i])], l0[i + 1..])
    ensures l0[..i] + [l0[i]] == l0[..i + 1]
  {
    var chain, frame, next := l0[..i], l0[i - 1], l0[i];
    ChainSplit(fs0, l0, i);
    assert next == l0[i..][0];
    ChainSplit(fs0, l0, i + 1);
    assert frame == l0[..i + 1][i - 1];
    RunFrame(fs, chain, next, fs1[next]);
    assert chain[|chain| - 1] == frame;
    RunExtend(fs1, chain, frame, next);
    ChainFrame(fs1, l0[i + 1..], frame, fs1[frame].(next := next));
    assert l0[..i] + [next] == l0[..i + 1];
  }

  /** The last frame of a non-empty run names a record and ends in -1. */
  lemma {:induction false} RunLast(fs: seq<Frame>, c: seq<int>)
    requires Run(fs, c) && |c| > 0
    ensures 0 <= c[|c| - 1] < |fs| && fs[c[|c| - 1]].next == -1
    decreases |c|
  {
    if |c| > 1 {
      RunLast(fs, c[1..]);
    }
  }

  /** The list `l` after pushing the frames of `c` on it, one at a time. */
  function PushAll(l: seq<int>, c: seq<int>): (r: seq<int>)
    ensures |r| == |l| + |c|
    decreases |c|
  {
    if c == [] then l else PushAll([c[0]] + l, c[1..])
  }

  /** Pushing a run frame by frame leaves it on the list in reverse order. */
  lemma {:induction false} PushAllReverses(l: seq<int>, c: seq<int>)
    ensures PushAll(l, c) == Reverse(c) + l
    decreases |c|
  {
    if c != [] {
      PushAllReverses([c[0]] + l, c[1..]);
      assert Reverse(c) == Reverse(c[1..]) + [c[0]];
    }
  }

  /** How many frames frame_n_alloc asks for: its loop runs from 1, so at
    * least one. */
  function Attempts(nframes: int): (r: nat)
    ensures r >= 1 && r >= nframes && (nframes >= 1 ==> r == nframes)
  {
    if nframes < 1 then 1 else nframes
  }

  /** The frames of a run that left the untyped list are not on it. */
  ghost predicate Disjoint(c: seq<int>, l: seq<int>)
  {
    forall k :: 0 <= k < |c| ==> c[k] !in l
  }

  /** No index occurs twice in c. */
  ghost predicate Distinct(c: seq<int>)
  {
    forall i, j :: 0 <= i < j < |c| ==> c[i] != c[j]
  }

  /** Every index of c names one of n records. */
  ghost predicate InRange(c: seq<int>, n: int)
  {
    forall k :: 0 <= k < |c| ==> 0 <= c[k] < n
  }

  /** The frames of a run name records and none repeats. */
  lemma {:induction false} RunDistinct(fs: seq<Frame>, c: seq<int>)
    requires Run(fs, c)
    ensures InRange(c, |fs|) && Distinct(c)
    decreases |c|
  {
    if |c| > 1 {
      RunDistinct(fs, c[1..]);
      assert forall j :: 1 <= j < |c| ==> c[j] == c[1..][j - 1];
    }
  }

  /** The first i entries of an untyped list name records and none repeats. */
  lemma PrefixDistinct(fs: seq<Frame>, l: seq<int>, i: int)
    requires UntypedChain(fs, l) && 0 <= i <= |l|
    ensures InRange(l[..i], |fs|) && Distinct(l[..i])
  {
    forall k | 0 <= k < i ensures 0 <= l[k] < |fs| {
      ChainInRange(fs, l, l[k]);
    }
    forall a, b | 0 <= a < b < i ensures l[a] != l[b] {
      ChainDistinct(fs, l, a, b);
    }
  }

  /** The records after frame_free has been applied to the frames of c in
    * order, the first pushed on an untyped list headed by `head`. */
  function FreedAll(fs: seq<Frame>, head: int, c: seq<int>): (r: seq<Frame>)
    requires InRange(c, |fs|)
    ensures |r| == |fs|
    decreases |c|
  {
    if c == [] then fs
    else FreedAll(fs[c[0] := Freed(fs[c[0]], head)], c[0], c[1..])
  }

  /** Freeing a run leaves the record of a frame outside it as it was. */
  lemma {:induction false} FreedAllOutside(fs: seq<Frame>, head: int, c: seq<int>, x: int)
    requires InRange(c, |fs|) && 0 <= x < |fs| && x !in c
    ensures FreedAll(fs, head, c)[x] == fs[x]
    decreases |c|
  {
    if c != [] {
      assert x !in c[1..];
      FreedAllOutside(fs[c[0] := Freed(fs[c[0]], head)], c[0], c[1..], x);
    }
  }

  /** Freeing a run frame by frame makes its k-th frame a Freed record
    * linked to the frame freed before it, the first to the old head. */
  lemma {:induction false} FreedAllIndex(fs: seq<Frame>, head: int, c: seq<int>, k: int)
    requires InRange(c, |fs|) && Distinct(c) && 0 <= k < |c|
    ensures FreedAll(fs, head, c)[c[k]] == Freed(fs[c[k]], if k == 0 then head else c[k - 1])
    decreases |c|
  {
    var fs1 := fs[c[0] := Freed(fs[c[0]], head)];
    assert InRange(c[1..], |fs1|) && Distinct(c[1..]);
    if k == 0 {
      assert c[0] !in c[1..];
      FreedAllOutside(fs1, c[0], c[1..], c[0]);
    } else {
      assert c[k] == c[1..][k - 1] && c[k] != c[0];
      FreedAllIndex(fs1, c[0], c[1..], k - 1);
      if k > 1 {
        assert c[1..][k - 2] == c[k - 1];
      }
    }
  }

  /** One statement `frames[prev].next = frame_alloc(NULL)` that handed
    * out frame n: n holds the retyped object and ends the run, and prev
    * (none when negative) links to it. */
  function AllocLink(fs: seq<Frame>, prev: int, n: int, rt: Retyped): (r: seq<Frame>)
    requires 0 <= n < |fs| && prev < |fs|
    ensures |r| == |fs| && (prev != n ==> r[n] == Allocated(fs[n], rt))
    ensures 0 <= prev && prev != n ==> r[prev] == fs[prev].(next := n)
    ensures forall x :: 0 <= x < |fs| && x != n && x != prev ==> r[x] == fs[x]
  {
    var q := fs[n := Allocated(fs[n], rt)];
    if prev < 0 then q else q[prev := q[prev].(next := n)]
  }

  /** The first k entries of c name records and each has a retyped object
    * in rts. */
  ghost predicate Handed(c: seq<int>, rts: seq<Option<Retyped>>, n: int, k: int)
  {
    0 <= k <= |c| && k <= |rts| && forall j :: 0 <= j < k ==> 0 <= c[j] < n && rts[j].Some?
  }

  /** The records after frame_n_alloc handed out the first k frames of c in
    * order, the j-th with the retyped object rts[j], each linked to the
    * next and the last to -1. */
  function Allocs(fs: seq<Frame>, c: seq<int>, rts: seq<Option<Retyped>>, k: int): (r: seq<Frame>)
    requires Handed(c, rts, |fs|, k)
    ensures |r| == |fs|
    decreases k
  {
    if k == 0 then fs
    else AllocLink(Allocs(fs, c, rts, k - 1), if k == 1 then -1 else c[k - 2], c[k - 1], rts[k - 1].value)
  }

  /** A frame outside the run keeps its record. */
  lemma {:induction false} AllocsOutside(fs: seq<Frame>, c: seq<int>, rts: seq<Option<Retyped>>, k: int, x: int)
    requires Handed(c, rts, |fs|, k) && 0 <= x < |fs|
    requires forall j :: 0 <= j < k ==> c[j] != x
    ensures Allocs(fs, c, rts, k)[x] == fs[x]
    decreases k
  {
    if k > 0 {
      AllocsOutside(fs, c, rts, k - 1, x);
    }
  }

  /** No entry among the first k of c occurs twice. */
  ghost predicate DistinctUpTo(c: seq<int>, k: int)
    requires k <= |c|
  {
    forall a, b :: 0 <= a < b < k ==> c[a] != c[b]
  }

  /** The j-th frame of the run holds the j-th retyped object and links to
    * the next frame of the run, the last to -1. */
  lemma {:induction false} AllocsIndex(fs: seq<Frame>, c: seq<int>, rts: seq<Option<Retyped>>, k: int, j: int)
    requires Handed(c, rts, |fs|, k) && DistinctUpTo(c, k) && 0 <= j < k
    ensures Allocs(fs, c, rts, k)[c[j]] ==
              Allocated(fs[c[j]], rts[j].value).(next := if j + 1 < k then c[j + 1] else -1)
    decreases k
  {
    var before := Allocs(fs, c, rts, k - 1);
    if j == k - 1 {
      AllocsOutside(fs, c, rts, k - 1, c[j]);
    } else {
      AllocsIndex(fs, c, rts, k - 1, j);
      assert c[k - 1] != c[j];
      if j == k - 2 {
        assert Allocs(fs, c, rts, k)[c[j]] == before[c[j]].(next := c[k - 1]);
      } else {
        assert c[k - 2] != c[j];
        assert Allocs(fs, c, rts, k)[c[j]] == before[c[j]];
      }
    }
  }

  /** After the run c, the front of the list l, was handed out, a frame
    * outside the run keeps its record. */
  lemma {:induction false} AllocsKeep(fs: seq<Frame>, l: seq<int>, rts: seq<Option<Retyped>>, c: seq<int>, r: seq<Frame>)
    requires Handed(l, rts, |fs|, |c|) && c == l[..|c|]
    requires r == Allocs(fs, l, rts, |c|)
    ensures |r| == |fs|
    ensures forall x :: 0 <= x < |fs| && x !in c ==> r[x] == fs[x]
  {
    forall x | 0 <= x < |fs| && x !in c
      ensures r[x] == fs[x]
    {
      assert forall j :: 0 <= j < |c| ==> l[j] == c[j];
      AllocsOutside(fs, l, rts, |c|, x);
    }
  }

  /** After the run c, the front of the list l, was handed out, its j-th
    * frame holds the j-th retyped object and links to the next one, the
    * last to -1. */
  lemma {:induction false} AllocsRun(fs: seq<Frame>, l: seq<int>, rts: seq<Option<Retyped>>, c: seq<int>, r: seq<Frame>)
    requires Handed(l, rts, |fs|, |c|) && c == l[..|c|] && Distinct(c)
    requires r == Allocs(fs, l, rts, |c|)
    ensures |r| == |fs|
    ensures forall j {:trigger r[c[j]]} :: 0 <= j < |c| ==>
              r[c[j]] == Allocated(fs[c[j]], rts[j].value).(next := if j + 1 < |c| then c[j + 1] else -1)
  {
    assert forall j :: 0 <= j < |c| ==> l[j] == c[j];
    assert DistinctUpTo(l, |c|);
    forall j | 0 <= j < |c|
      ensures r[c[j]] == Allocated(fs[c[j]], rts[j].value).(next := if j + 1 < |c| then c[j + 1] else -1)
    {
      AllocsIndex(fs, l, rts, |c|, j);
    }
  }

  /** After the run c was handed out and freed again, a frame outside the
    * run keeps its record. */
  lemma {:induction false} FreedKeep(fs: seq<Frame>, l: seq<int>, rts: seq<Option<Retyped>>, c: seq<int>, head: int,
                  r: seq<Frame>)
    requires Handed(l, rts, |fs|, |c|) && c == l[..|c|]
    requires r == FreedAll(Allocs(fs, l, rts, |c|), head, c)
    ensures |r| == |fs|
    ensures forall x :: 0 <= x < |fs| && x !in c ==> r[x] == fs[x]
  {
    var a := Allocs(fs, l, rts, |c|);
    AllocsKeep(fs, l, rts, c, a);
    forall x | 0 <= x < |fs| && x !in c
      ensures r[x] == fs[x]
    {
      FreedAllOutside(a, head, c, x);
    }
  }

  /** After the run c was handed out and freed again onto a list headed by
    * `head`, its j-th frame is a Freed record of the allocated frame,
    * linked to the frame freed before it. */
  lemma {:induction false} FreedRun(fs: seq<Frame>, l: seq<int>, rts: seq<Option<Retyped>>, c: seq<int>, head: int,
                 a: seq<Frame>, r: seq<Frame>)
    requires Handed(l, rts, |fs|, |c|) && c == l[..|c|] && Distinct(c)
    requires a == Allocs(fs, l, rts, |c|) && InRange(c, |a|) && r == FreedAll(a, head, c)
    ensures |r| == |fs|
    ensures forall j {:trigger r[c[j]]} :: 0 <= j < |c| ==>
              r[c[j]] == Freed(Allocated(fs[c[j]], rts[j].value), if j == 0 then head else c[j - 1])
  {
    AllocsRun(fs, l, rts, c, a);
    forall j | 0 <= j < |c|
      ensures r[c[j]] == Freed(Allocated(fs[c[j]], rts[j].value), if j == 0 then head else c[j - 1])
    {
      FreedAllIndex(a, head, c, j);
      assert rts[j].Some?;
      FreedReadsFlag(a[c[j]], Allocated(fs[c[j]], rts[j].value), if j == 0 then head else c[j - 1]);
    }
  }

  /** Frame by frame, `r` is `fs` after the run c was handed out: a frame
    * outside the run keeps its record, and the j-th frame of the run holds
    * the j-th retyped object and links to the next one, the last to -1. */
  ghost predicate HandedOut(fs: seq<Frame>, r: seq<Frame>, c: seq<int>, rts: seq<Option<Retyped>>)
    requires InRange(c, |fs|) && |r| == |fs| && |c| <= |rts|
    requires forall j :: 0 <= j < |c| ==> rts[j].Some?
  {
    (forall x :: 0 <= x < |fs| && x !in c ==> r[x] == fs[x]) &&
    forall j {:trigger r[c[j]]} :: 0 <= j < |c| ==>
      r[c[j]] == Allocated(fs[c[j]], rts[j].value).(next := if j + 1 < |c| then c[j + 1] else -1)
  }

  /** Frame by frame, `r` is `fs` after the run c was handed out and freed
    * again onto a list headed by `head`: a frame outside the run keeps its
    * record, and the j-th frame of the run is a Freed record of the
    * allocated frame, linked to the frame freed before it. */
  ghost predicate GivenBack(fs: seq<Frame>, r: seq<Frame>, c: seq<int>, rts: seq<Option<Retyped>>, head: int)
    requires InRange(c, |fs|) && |r| == |fs| && |c| <= |rts|
    requires forall j :: 0 <= j < |c| ==> rts[j].Some?
  {
    (forall x :: 0 <= x < |fs| && x !in c ==> r[x] == fs[x]) &&
    forall j {:trigger r[c[j]]} :: 0 <= j < |c| ==>
      r[c[j]] == Freed(Allocated(fs[c[j]], rts[j].value), if j == 0 then head else c[j - 1])
  }

  /** Allocs, frame by frame. */
  lemma AllocsHandOut(fs: seq<Frame>, l: seq<int>, rts: seq<Option<Retyped>>, c: seq<int>)
    requires Handed(l, rts, |fs|, |c|) && c == l[..|c|] && Distinct(c)
    ensures InRange(c, |fs|) && |c| <= |rts| && forall j :: 0 <= j < |c| ==> rts[j].Some?
    ensures HandedOut(fs, Allocs(fs, l, rts, |c|), c, rts)
  {
    var r := Allocs(fs, l, rts, |c|);
    AllocsKeep(fs, l, rts, c, r);
    AllocsRun(fs, l, rts, c, r);
  }

  /** FreedAll after Allocs, frame by frame. */
  lemma AllocsGiveBack(fs: seq<Frame>, l: seq<int>, rts: seq<Option<Retyped>>, c: seq<int>, head: int)
    requires Handed(l, rts, |fs|, |c|) && c == l[..|c|] && Distinct(c)
    ensures InRange(c, |fs|) && |c| <= |rts| && forall j :: 0 <= j < |c| ==> rts[j].Some?
    ensures GivenBack(fs, FreedAll(Allocs(fs, l, rts, |c|), head, c), c, rts, head)
  {
    var a := Allocs(fs, l, rts, |c|);
    var r := FreedAll(a, head, c);
    FreedKeep(fs, l, rts, c, head, r);
    FreedRun(fs, l, rts, c, head, a, r);
  }

  /** The contents after every frame of c has been zero-filled. */
  function Zeroed(d: seq<Page>, c: seq<int>): (r: seq<Page>)
    ensures |r| == |d|
    ensures forall x :: 0 <= x < |d| ==> r[x] == if x in c then ZeroPage() else d[x]
  {
    seq(|d|, x requires 0 <= x < |d| => if x in c then ZeroPage() else d[x])
  }

  /** Zero-filling one more frame. */
  lemma ZeroedStep(d0: seq<Page>, c: seq<int>, n: int)
    requires 0 <= n < |d0|
    ensures Zeroed(d0, c)[n := ZeroPage()] == Zeroed(d0, c + [n])
  {
    var a, b := Zeroed(d0, c)[n := ZeroPage()], Zeroed(d0, c + [n]);
    forall x | 0 <= x < |d0|
      ensures a[x] == b[x]
    {
      assert x in c + [n] <==> x in c || x == n;
    }
  }

  /** The frame table (frame_table_t plus the frames it describes). The
    * records live in `frames`, the 4 KiB contents of each frame in `data`. */
  class FrameTable {
    var frames: array<Frame>
    var data: array<Page>
    var untyped: int
    var numFrees: int
    var max: int
    /** first_available_frame: the first frame not used by the table. */
    var firstAvailable: int
    /** The frames on the untyped list, head first; the last one links to
      * itself. */
    ghost var untypedList: seq<int>

    ghost predicate Valid()
      reads this, frames
    {
      frames.Length == data.Length &&
      0 < firstAvailable < frames.Length < 0x8000_0000 &&
      UntypedChain(frames[..], untypedList) && untypedList[0] == untyped
    }

    /** The statically zeroed frame_table and the memory it will describe. */
    constructor (nFrames: nat)
      requires 2 <= nFrames < 0x8000_0000
      ensures frames.Length == nFrames && data.Length == nFrames
      ensures fresh(frames) && fresh(data)
      ensures untyped == 0 && numFrees == 0 && max == 0 && firstAvailable == 0
    {
      frames := new Frame[nFrames](_ => Frame(0, 0, 0, 0, 0));
      data := new Page[nFrames](_ => ZeroPage());
      untyped, numFrees, max, firstAvailable := 0, 0, 0, 0;
      untypedList := [];
    }

    /** initialize_frame_table: the first TablePages(n) frames hold the table
      * itself (retyped one by one, pinned, USED); every other frame goes on
      * the untyped list in index order and the last one links to itself.
      * A failed retype stops the initialisation part-way. */
    method Initialize(retypes: seq<Option<Retyped>>) returns (complete: bool)
      requires frames.Length == data.Length && 2 <= frames.Length < 0x8000_0000
      requires |retypes| == TablePages(frames.Length)
      modifies this, frames
      ensures frames == old(frames) && data == old(data)
      ensures complete <==> forall i :: 0 <= i < |retypes| ==> retypes[i].Some?
      ensures complete ==> Valid()
      ensures complete ==> untypedList == Range(TablePages(frames.Length), frames.Length)
      ensures complete ==> firstAvailable == TablePages(frames.Length)
      ensures complete ==> max == frames.Length - firstAvailable + 1
      ensures complete ==> forall i :: 0 <= i < firstAvailable ==>
                frames[i] == TableRecord(old(frames[i]), retypes[i].value)
      ensures complete ==> forall i :: firstAvailable <= i < frames.Length ==>
                frames[i] == UntypedRecord(old(frames[i]), if i == frames.Length - 1 then i else i + 1)
    {
      var n := frames.Length;
      var nPages := TablePages(n);
      TablePagesLeaveRoom(n);
      untyped := nPages;
      var i := 0;
      while i < nPages
        invariant 0 <= i <= nPages
        invariant frames == old(frames) && data == old(data) && untyped == nPages
        invariant forall j :: 0 <= j < i ==> retypes[j].Some?
        invariant forall j :: 0 <= j < i ==> frames[j] == TableRecord(old(frames[j]), retypes[j].value)
        invariant forall j :: i <= j < n ==> frames[j] == old(frames[j])
      {
        match retypes[i] {
          case None =>
            return false;
          case Some(rt) =>
            frames[i] := TableRecord(frames[i], rt);
        }
        i := i + 1;
      }
      firstAvailable := nPages;
      LinkUntyped();
      complete := true;
    }

    /** The second half of initialize_frame_table: frames firstAvailable ..
      * n - 1 are chained in index order onto the untyped list, the last
      * linked to itself, and `max` is set to n - firstAvailable + 1. */
    method LinkUntyped()
      requires frames.Length == data.Length && 0 < firstAvailable < frames.Length < 0x8000_0000
      requires untyped == firstAvailable
      modifies this, frames
      ensures Valid()
      ensures frames == old(frames) && data == old(data) && firstAvailable == old(firstAvailable)
      ensures untypedList == Range(firstAvailable, frames.Length)
      ensures max == frames.Length - firstAvailable + 1
      ensures forall i :: 0 <= i < firstAvailable ==> frames[i] == old(frames[i])
      ensures forall i :: firstAvailable <= i < frames.Length ==>
                frames[i] == UntypedRecord(old(frames[i]), if i == frames.Length - 1 then i else i + 1)
    {
      var n := frames.Length;
      var i := firstAvailable;
      while i < n
        invariant firstAvailable <= i <= n
        invariant frames == old(frames) && data == old(data)
        invariant firstAvailable == old(firstAvailable) && untyped == old(untyped)
        invariant forall j :: 0 <= j < firstAvailable ==> frames[j] == old(frames[j])
        invariant forall j :: firstAvailable <= j < i ==> frames[j] == UntypedRecord(old(frames[j]), j + 1)
        invariant forall j :: i <= j < n ==> frames[j] == old(frames[j])
      {
        frames[i] := UntypedRecord(frames[i], i + 1);
        i := i + 1;
      }
      frames[n - 1] := frames[n - 1].(next := n - 1);
      max := n - firstAvailable + 1;
      untypedList := Range(firstAvailable, n);
      RangeChain(frames[..], firstAvailable, n);
    }

    /** frame_alloc: when alloc_retype succeeds, the head of the untyped list
      * is handed out zero-filled, pinned and marked USED, and `max` is
      * raised to cover it; otherwise -1 and a NULL address. */
    method FrameAlloc(retype: Option<Retyped>) returns (page: int, vaddr: Word)
      requires Valid()
      requires retype.Some? ==> |untypedList| >= 2
      modifies this, frames, data
      ensures frames == old(frames) && data == old(data) && numFrees == old(numFrees)
      ensures firstAvailable == old(firstAvailable)
      ensures Valid()
      ensures retype.None? ==>
                (page == -1 && vaddr == 0 &&
                 untypedList == old(untypedList) && untyped == old(untyped) && max == old(max) &&
                 frames[..] == old(frames[..]) && data[..] == old(data[..]))
      ensures retype.Some? ==>
                (page == old(untypedList[0]) && untypedList == old(untypedList[1..]) &&
                 vaddr == FrameVaddr(page) &&
                 frames[..] == old(frames[..])[page := Allocated(old(frames[page]), retype.value)] &&
                 data[..] == old(data[..])[page := ZeroPage()] &&
                 max == (if page > old(max) then page else old(max)) && max >= page)
    {
      if retype.None? {
        return -1, 0;
      }
      page := untyped;
      vaddr := FrameVaddr(page);
      var f := frames[page];
      untyped := f.next;
      var r := Allocated(f, retype.value);
      PopKeepsChain(frames[..], untypedList, r);
      frames[page] := r;
      data[page] := ZeroPage();
      if page > max {
        max := page;
      }
      untypedList := untypedList[1..];
    }

    /** frame_free: halts on an index outside the table; otherwise pins the
      * frame, releases its untyped object and capability (free_to_untype)
      * and pushes it on the untyped list. */
    method FrameFree(frame: int) returns (halted: bool)
      requires Valid()
      requires 0 <= frame < frames.Length ==> frame !in untypedList
      modifies this, frames
      ensures Valid()
      ensures frames == old(frames) && data == old(data)
      ensures max == old(max) && firstAvailable == old(firstAvailable)
      ensures halted <==> !(0 <= frame < frames.Length)
      ensures halted ==>
                (untypedList == old(untypedList) && untyped == old(untyped) &&
                 numFrees == old(numFrees) && frames[..] == old(frames[..]))
      ensures !halted ==>
                (untypedList == [frame] + old(untypedList) && numFrees == old(numFrees) - 1 &&
                 frames[..] == old(frames[..])[frame := Freed(old(frames[frame]), old(untyped))])
    {
      if frame < 0 || frame >= frames.Length {
        return true;
      }
      var r := Freed(frames[frame], untyped);
      PushKeepsChain(frames[..], untypedList, frame, r);
      frames[frame] := r;
      untyped := frame;
      numFrees := numFrees - 1;
      untypedList := [frame] + untypedList;
      return false;
    }

    /** The alloc/free loop of the start-up test: a frame that is freed is
      * the very next one frame_alloc hands out (the untyped list is LIFO),
      * so alternating the two never runs out of memory. */
    method FreeThenAlloc(frame: int, rt: Retyped) returns (page: int)
      requires Valid() && 0 <= frame < frames.Length && frame !in untypedList
      modifies this, frames, data
      ensures Valid() && page == frame && untypedList == old(untypedList)
    {
      var halted := FrameFree(frame);
      var vaddr;
      page, vaddr := FrameAlloc(Some(rt));
    }

    /** frame_n_free: frees every frame of a run, head first, so the run
      * ends up on the untyped list in reverse order, each frame a Freed
      * record linked to the one freed before it, and num_frees drops by
      * the length of the run. */
    method FrameNFree(base: int, ghost chain: seq<int>)
      requires Valid() && Run(frames[..], chain) && Disjoint(chain, untypedList)
      requires base == (if chain == [] then -1 else chain[0])
      modifies this, frames
      ensures Valid()
      ensures frames == old(frames) && data == old(data) && max == old(max)
      ensures firstAvailable == old(firstAvailable)
      ensures untypedList == Reverse(chain) + old(untypedList)
      ensures numFrees == old(numFrees) - |chain|
      ensures InRange(chain, frames.Length) && frames[..] == FreedAll(old(frames[..]), old(untyped), chain)
      ensures forall x :: 0 <= x < frames.Length && x !in chain ==> frames[x] == old(frames[x])
      ensures forall k :: 0 <= k < |chain| ==>
                frames[chain[k]] == Freed(old(frames[chain[k]]), if k == 0 then old(untyped) else chain[k - 1])
    {
      RunDistinct(frames[..], chain);
      var tmp := base;
      ghost var rest := chain;
      while tmp != -1
        invariant Valid()
        invariant frames == old(frames) && data == old(data) && max == old(max)
        invariant firstAvailable == old(firstAvailable)
        invariant tmp == (if rest == [] then -1 else rest[0])
        invariant PushAll(untypedList, rest) == PushAll(old(untypedList), chain)
        invariant Run(frames[..], rest) && Disjoint(rest, untypedList)
        invariant |rest| <= |chain| && numFrees == old(numFrees) - (|chain| - |rest|)
        invariant InRange(rest, frames.Length)
        invariant FreedAll(frames[..], untyped, rest) == FreedAll(old(frames[..]), old(untyped), chain)
        decreases |rest|
      {
        var frame := frames[tmp].next;
        RunTail(frames[..], rest, Freed(frames[tmp], untyped));
        var halted := FrameFree(tmp);
        rest := rest[1..];
        tmp := frame;
      }
      assert rest == [];
      PushAllReverses(old(untypedList), chain);
      ghost var after := FreedAll(old(frames[..]), old(untyped), chain);
      assert frames[..] == after;
      forall x | 0 <= x < frames.Length && x !in chain
        ensures frames[x] == old(frames[x])
      {
        FreedAllOutside(old(frames[..]), old(untyped), chain, x);
        assert frames[x] == after[x];
      }
      forall k | 0 <= k < |chain|
        ensures frames[chain[k]] == Freed(old(frames[chain[k]]), if k == 0 then old(untyped) else chain[k - 1])
      {
        FreedAllIndex(old(frames[..]), old(untyped), chain, k);
        assert frames[chain[k]] == after[chain[k]];
      }
    }

    /** The statement `frames[frame].next = frame_alloc(NULL)` of
      * frame_n_alloc: allocates a frame and links the last frame of the run
      * `chain` to it (or to -1 when the allocation fails). The run is the
      * prefix of the untyped list `l0` that was handed out so far. */
    method LinkAlloc(retype: Option<Retyped>, frame: int, ghost fs0: seq<Frame>, ghost l0: seq<int>,
                     ghost chain: seq<int>) returns (next: int)
      requires Valid() && UntypedChain(fs0, l0)
      requires 1 <= |chain| < |l0| && chain == l0[..|chain|] && untypedList == l0[|chain|..]
      requires frame == chain[|chain| - 1] && Run(frames[..], chain)
      requires retype.Some? ==> |chain| + 2 <= |l0|
      modifies this, frames, data
      ensures Valid()
      ensures frames == old(frames) && data == old(data) && firstAvailable == old(firstAvailable)
      ensures numFrees == old(numFrees)
      ensures retype.None? ==>
                (next == -1 && untypedList == old(untypedList) && frames[..] == old(frames[..]) &&
                 data[..] == old(data[..]) && max == old(max))
      ensures retype.Some? ==>
                (next == l0[|chain|] && untypedList == l0[|chain| + 1..] &&
                 chain + [next] == l0[..|chain| + 1] && Run(frames[..], chain + [next]) &&
                 0 <= next < frames.Length && 0 <= frame < frames.Length && next != frame &&
                 frames[..] == AllocLink(old(frames[..]), frame, next, retype.value) &&
                 data[..] == old(data[..])[next := ZeroPage()] &&
                 max == (if next > old(max) then next else old(max)))
    {
      ghost var fs, i := frames[..], |chain|;
      RunLast(fs, chain);
      var addr;
      next, addr := FrameAlloc(retype);
      ghost var fs1 := frames[..];
      frames[frame] := frames[frame].(next := next);
      if next == -1 {
        assert frames[..] == fs;
        return;
      }
      assert l0[i..][1..] == l0[i + 1..];
      ExtendStep(fs0, l0, fs, fs1, i);
      assert frames[..] == fs1[frame := fs1[frame].(next := next)];
    }

    /** The failure path of frame_n_alloc: the run handed out so far, a
      * prefix of the untyped list `l0` it was taken from, is given back
      * with frame_n_free. */
    method GiveBack(first: int, ghost l0: seq<int>, ghost chain: seq<int>)
      requires Valid() && 1 <= |chain| < |l0| && chain == l0[..|chain|] && first == chain[0]
      requires untypedList == l0[|chain|..] && Disjoint(chain, untypedList)
      requires Run(frames[..], chain)
      modifies this, frames
      ensures Valid()
      ensures frames == old(frames) && data == old(data) && max == old(max)
      ensures firstAvailable == old(firstAvailable) && data[..] == old(data[..])
      ensures untypedList == Reverse(chain) + l0[|chain|..]
      ensures numFrees == old(numFrees) - |chain|
      ensures InRange(chain, frames.Length) && frames[..] == FreedAll(old(frames[..]), l0[|chain|], chain)
    {
      FrameNFree(first, chain);
    }

    /** Where frame_n_alloc stands after handing out the run `chain`: the
      * run is the front of the untyped list `l0` it started from, its
      * frames are Allocs records over the starting records `fs0` and
      * zero-filled over the starting contents `d0`, num_frees is still
      * `nf0`, and `max` (from `m0`) covers the run. */
    ghost predicate Extended(fs0: seq<Frame>, l0: seq<int>, d0: seq<Page>, nf0: int, m0: int,
                             chain: seq<int>, retypes: seq<Option<Retyped>>)
      reads this, frames, data
    {
      Valid() && UntypedChain(fs0, l0) &&
      1 <= |chain| < |l0| && chain == l0[..|chain|] && untypedList == l0[|chain|..] &&
      Run(frames[..], chain) &&
      |fs0| == frames.Length && |d0| == data.Length && InRange(chain, |fs0|) && Distinct(chain) &&
      Handed(l0, retypes, |fs0|, |chain|) && frames[..] == Allocs(fs0, l0, retypes, |chain|) &&
      data[..] == Zeroed(d0, chain) &&
      numFrees == nf0 && max >= m0 && (max == m0 || max in chain) &&
      (forall k :: 0 <= k < |chain| ==> chain[k] <= max)
    }

    /** One round of frame_n_alloc's loop: the |chain|-th retype either
      * fails (-1, nothing changes) or extends the run by the next frame of
      * the untyped list. */
    method AllocNext(retypes: seq<Option<Retyped>>, i: int, frame: int, ghost fs0: seq<Frame>, ghost l0: seq<int>,
                     ghost d0: seq<Page>, ghost nf0: int, ghost m0: int, ghost chain: seq<int>)
      returns (next: int)
      requires Extended(fs0, l0, d0, nf0, m0, chain, retypes)
      requires i == |chain| < |retypes| && frame == chain[|chain| - 1]
      requires retypes[|chain|].Some? ==> |chain| + 2 <= |l0|
      modifies this, frames, data
      ensures frames == old(frames) && data == old(data) && firstAvailable == old(firstAvailable)
      ensures next == -1 <==> retypes[|chain|].None?
      ensures next == -1 ==> Extended(fs0, l0, d0, nf0, m0, chain, retypes)
      ensures next != -1 ==> next == l0[|chain|] && chain + [next] == l0[..|chain| + 1] &&
                             Extended(fs0, l0, d0, nf0, m0, chain + [next], retypes)
    {
      next := LinkAlloc(retypes[i], frame, fs0, l0, chain);
      if next == -1 {
        return;
      }
      PrefixDistinct(fs0, l0, |chain| + 1);
      ZeroedStep(d0, chain, next);
      assert forall k :: 0 <= k < |chain| + 1 ==> (chain + [next])[k] <= max;
    }

    /** frame_n_alloc: allocates max(1, nframes) frames one by one and links
      * each to the next, the last to -1. When a later frame_alloc fails the
      * frames already taken are freed again and -1 is returned. The i-th
      * call to alloc_retype yields retypes[i]. */
    method FrameNAlloc(nframes: int, retypes: seq<Option<Retyped>>)
      returns (base: int, vaddr: Word, ghost chain: seq<int>)
      requires Valid()
      requires |retypes| >= Attempts(nframes)
      requires forall i :: 0 <= i < |retypes| && retypes[i].Some? ==> i + 2 <= |untypedList|
      modifies this, frames, data
      ensures Valid()
      ensures frames == old(frames) && data == old(data) && firstAvailable == old(firstAvailable)
      ensures |chain| < |old(untypedList)| && chain == old(untypedList)[..|chain|]
      ensures InRange(chain, frames.Length) && Distinct(chain)
      ensures |chain| <= |retypes| && forall k :: 0 <= k < |chain| ==> retypes[k].Some?
      ensures vaddr == (if chain == [] then 0 else FrameVaddr(chain[0]))
      ensures base == -1 <==> exists i :: 0 <= i < Attempts(nframes) && retypes[i].None?
      ensures base != -1 ==>
                (|chain| == Attempts(nframes) && base == chain[0] && Run(frames[..], chain) &&
                 untypedList == old(untypedList)[|chain|..])
      ensures base == -1 ==> untypedList == Reverse(chain) + old(untypedList)[|chain|..]
      ensures base != -1 ==> HandedOut(old(frames[..]), frames[..], chain, retypes) && numFrees == old(numFrees)
      ensures base == -1 ==>
                GivenBack(old(frames[..]), frames[..], chain, retypes, old(untypedList)[|chain|]) &&
                numFrees == old(numFrees) - |chain|
      ensures data[..] == Zeroed(old(data[..]), chain)
      ensures max >= old(max) && (max == old(max) || max in chain)
      ensures forall k :: 0 <= k < |chain| ==> chain[k] <= max
    {
      ghost var fs0, l0, d0 := frames[..], untypedList, data[..];
      var first;
      first, vaddr := FrameAlloc(retypes[0]);
      if first == -1 {
        assert data[..] == Zeroed(d0, []);
        return -1, vaddr, [];
      }
      assert [first] == l0[..1];
      ZeroedStep(d0, [], first);
      base, chain := AllocRest(nframes, retypes, first, fs0, l0, d0, old(numFrees), old(max));
      if base != -1 {
        AllocsHandOut(fs0, l0, retypes, chain);
      } else {
        AllocsGiveBack(fs0, l0, retypes, chain, l0[|chain|]);
      }
    }

    /** frame_n_alloc once its first frame is handed out: the loop, and on a
      * failed retype the frames taken so far freed again. `fs0`, `l0`,
      * `d0`, `nf0` and `m0` are the records, untyped list, contents,
      * num_frees and max before the first frame was taken. */
    method AllocRest(nframes: int, retypes: seq<Option<Retyped>>, first: int, ghost fs0: seq<Frame>,
                     ghost l0: seq<int>, ghost d0: seq<Page>, ghost nf0: int, ghost m0: int)
      returns (base: int, ghost chain: seq<int>)
      requires Extended(fs0, l0, d0, nf0, m0, [first], retypes)
      requires |retypes| >= Attempts(nframes)
      requires forall i :: 0 <= i < |retypes| && retypes[i].Some? ==> i + 2 <= |l0|
      modifies this, frames, data
      ensures Valid()
      ensures frames == old(frames) && data == old(data) && firstAvailable == old(firstAvailable)
      ensures 1 <= |chain| < |l0| && chain == l0[..|chain|] && chain[0] == first
      ensures InRange(chain, frames.Length) && Distinct(chain)
      ensures Handed(l0, retypes, frames.Length, |chain|)
      ensures base == -1 <==> exists i :: 0 <= i < Attempts(nframes) && retypes[i].None?
      ensures base != -1 ==>
                (|chain| == Attempts(nframes) && base == first && Run(frames[..], chain) &&
                 untypedList == l0[|chain|..])
      ensures base == -1 ==> untypedList == Reverse(chain) + l0[|chain|..]
      ensures base != -1 ==> frames[..] == Allocs(fs0, l0, retypes, |chain|) && numFrees == nf0
      ensures base == -1 ==>
                frames[..] == FreedAll(Allocs(fs0, l0, retypes, |chain|), l0[|chain|], chain) &&
                numFrees == nf0 - |chain|
      ensures data[..] == Zeroed(d0, chain)
      ensures max >= m0 && (max == m0 || max in chain)
      ensures forall k :: 0 <= k < |chain| ==> chain[k] <= max
    {
      var complete;
      complete, chain := FillRun(nframes, retypes, first, fs0, l0, d0, nf0, m0);
      if !complete {
        ChainSplit(fs0, l0, |chain|);
        GiveBack(first, l0, chain);
        return -1, chain;
      }
      base := first;
    }

    /** The loop of frame_n_alloc, from the run [first] on: complete when
      * all Attempts(nframes) frames are handed out; otherwise the next
      * retype failed and nothing else changed. */
    method FillRun(nframes: int, retypes: seq<Option<Retyped>>, first: int, ghost fs0: seq<Frame>,
                   ghost l0: seq<int>, ghost d0: seq<Page>, ghost nf0: int, ghost m0: int)
      returns (complete: bool, ghost chain: seq<int>)
      requires Extended(fs0, l0, d0, nf0, m0, [first], retypes)
      requires |retypes| >= Attempts(nframes)
      requires forall i :: 0 <= i < |retypes| && retypes[i].Some? ==> i + 2 <= |l0|
      modifies this, frames, data
      ensures frames == old(frames) && data == old(data) && firstAvailable == old(firstAvailable)
      ensures Extended(fs0, l0, d0, nf0, m0, chain, retypes) && chain[0] == first
      ensures InRange(chain, |fs0|) && Distinct(chain)
      ensures complete ==> |chain| == Attempts(nframes)
      ensures !complete ==> |chain| < Attempts(nframes) && retypes[|chain|].None?
    {
      chain := [first];
      var frame := first;
      var i := 1;
      while i < nframes
        invariant 1 <= i <= Attempts(nframes) && |chain| == i && frame == chain[i - 1] && chain[0] == first
        invariant frames == old(frames) && data == old(data) && firstAvailable == old(firstAvailable)
        invariant Extended(fs0, l0, d0, nf0, m0, chain, retypes)
      {
        var next := AllocNext(retypes, i, frame, fs0, l0, d0, nf0, m0, chain);
        if next == -1 {
          PrefixDistinct(fs0, l0, i);
          return false, chain;
        }
        chain := chain + [next];
        frame := next;
        i := i + 1;
      }
      PrefixDistinct(fs0, l0, i);
      complete := true;
    }
  }

  /** A table frame after initialize_frame_table: the retyped object and
    * capability, no successor, USED and pinned. */
  function TableRecord(f: Frame, rt: Retyped): (r: Frame)
    ensures r.ut == rt.ut && r.frameCap == rt.frameCap && r.next == -1 && r.vaddr == f.vaddr
  {
    f.(ut := rt.ut, next := -1, flag := SetBit(USED_MEMORY, PIN), frameCap := rt.frameCap)
  }

  /** A frame put on the untyped list by initialize_frame_table: no untyped
    * object, linked to `next`, UNTYPE and pinned. */
  function UntypedRecord(f: Frame, next: int): (r: Frame)
    ensures r.ut == 0 && r.next == next && r.frameCap == f.frameCap && r.vaddr == f.vaddr
  {
    f.(ut := 0, next := next, flag := SetBit(UNTYPE_MEMORY, PIN))
  }

  /** After initialisation every frame is pinned: the table's frames are
    * USED and the others UNTYPE. */
  lemma InitialRecordsPinned(f: Frame, rt: Retyped, next: int)
    ensures BitSet(TableRecord(f, rt).flag, PIN) && TableRecord(f, rt).flag & USED_MEMORY == USED_MEMORY
    ensures BitSet(UntypedRecord(f, next).flag, PIN)
    ensures UntypedRecord(f, next).flag & UNTYPE_MEMORY == UNTYPE_MEMORY
  {
  }

  /** What free_to_untype (after frame_free's pin) leaves in a record: no
    * untyped object, no capability, no address, PIN and the UNTYPE bit
    * set, linked to the old head of the untyped list. */
  function Freed(f: Frame, head: int): (r: Frame)
    ensures r.next == head && r.ut == 0 && r.frameCap == 0 && r.vaddr == 0
  {
    Frame(0, head, 0, SetBit(f.flag, PIN) | UNTYPE_MEMORY, 0)
  }

  /** Of the record it frees, frame_free keeps only the flag word. */
  lemma FreedReadsFlag(f: Frame, g: Frame, head: int)
    requires f.flag == g.flag
    ensures Freed(f, head) == Freed(g, head)
  {
  }

  /** A freed frame stays pinned and gets the UNTYPE bit ORed into its
    * memory-type bits: a frame that was USED (0x3) still reads USED, since
    * nothing clears the other bit. */
  lemma FreedIsPinnedUntyped(f: Frame, head: int)
    ensures BitSet(Freed(f, head).flag, PIN)
    ensures Freed(f, head).flag & USED_MEMORY == (f.flag & USED_MEMORY) | UNTYPE_MEMORY
  {
  }

  /** frame_free only sets bits of the flag word: the owner's pid and the
    * reference bit survive. */
  lemma FreedKeepsFlagBits(f: Frame, head: int)
    ensures Freed(f, head).flag & f.flag == f.flag
  {
  }

  /** What frame_alloc leaves in the record of the frame it hands out: the
    * retyped object and capability, no successor, and the USED and PIN
    * bits added to the flag word. */
  function Allocated(f: Frame, rt: Retyped): (r: Frame)
    ensures r.ut == rt.ut && r.frameCap == rt.frameCap && r.next == -1 && r.vaddr == f.vaddr
  {
    f.(ut := rt.ut, frameCap := rt.frameCap, next := -1, flag := SetBit(f.flag | USED_MEMORY, PIN))
  }

  /** A frame handed out by frame_alloc is pinned and marked USED, and keeps
    * every other flag bit (the owner's pid among them). */
  lemma AllocatedIsPinnedUsed(f: Frame, rt: Retyped)
    ensures BitSet(Allocated(f, rt).flag, PIN)
    ensures Allocated(f, rt).flag & USED_MEMORY == USED_MEMORY
    ensures Allocated(f, rt).flag & f.flag == f.flag
  {
  }
}
