/** The timer driver's handler queue (libclock): a 1-indexed binary
  * min-heap of timeouts keyed by their absolute deadline `id`, stored
  * in a fixed array of MAX_HANDLER_SIZE + 1 slots whose slot 0 is a
  * zero sentinel. The hardware registers and the clock are outside the
  * model: "now" is a parameter and the register writes the driver would
  * make are returned as an Action. */
module Clock {
  import opened Common

  const MAX_HANDLER_SIZE: int := 32
  /** Deadlines closer than this (in microseconds) fire at once. */
  const TOLERANCE: int := 5000

  const CLOCK_R_OK: int := 0
  const CLOCK_R_FAIL: int := -3

  /** A registered timeout. The callback and its data are opaque. */
  datatype Handler = Handler(id: Word, callback: nat, data: nat, delay: Word, registeredTime: Word)

  /** What a driver operation does to the timer hardware. */
  datatype Action = NoChange | Stop | Program(count: int)

  /** The all-zero handler of the statically initialised array. */
  function ZeroHandler(): (h: Handler)
    ensures h.id == 0
  {
    Handler(0, 0, 0, 0, 0)
  }

  // ---------------------------------------------------------------
  // The heap on a value snapshot of the array
  // ---------------------------------------------------------------

  /** The handler in slot i is no earlier than its parent. */
  ghost predicate EdgeOk(s: seq<Handler>, i: int)
    requires 2 <= i < |s|
  {
    s[i / 2].id <= s[i].id
  }

  /** Every handler in slots 2..n is no earlier than its parent. */
  ghost predicate HeapOrdered(s: seq<Handler>, n: int)
    requires n < |s|
  {
    forall i :: 2 <= i <= n ==> EdgeOk(s, i)
  }

  /** The handlers currently in the heap, slots 1..n. */
  function Live(s: seq<Handler>, n: int): multiset<Handler>
    requires 0 <= n < |s|
  {
    multiset(s[1..n + 1])
  }

  /** swap(): exchanges two slots and nothing else. */
  function Swap(s: seq<Handler>, i: int, j: int): (r: seq<Handler>)
    requires 0 <= i < |s| && 0 <= j < |s|
    ensures |r| == |s| && r[i] == s[j] && r[j] == s[i]
    ensures forall k :: 0 <= k < |s| && k != i && k != j ==> r[k] == s[k]
  {
    s[i := s[j]][j := s[i]]
  }

  lemma SwapPermutes(s: seq<Handler>, i: int, j: int)
    requires 0 <= i < |s| && 0 <= j < |s|
    ensures multiset(Swap(s, i, j)) == multiset(s)
  {
  }

  /** swim(k): while the parent of k is later than k, exchange them.
    * The loop runs down to k == 1, whose "parent" is the sentinel. */
  function Swum(s: seq<Handler>, k: int): (r: seq<Handler>)
    requires 0 <= k < |s|
    ensures |r| == |s|
    ensures forall i :: k < i < |s| ==> r[i] == s[i]
    decreases k
  {
    if k > 0 && s[k / 2].id > s[k].id then Swum(Swap(s, k, k / 2), k / 2) else s
  }

  lemma {:induction false} SwumPermutes(s: seq<Handler>, k: int)
    requires 0 <= k < |s|
    ensures multiset(Swum(s, k)) == multiset(s)
    decreases k
  {
    if k > 0 && s[k / 2].id > s[k].id {
      SwapPermutes(s, k, k / 2);
      SwumPermutes(Swap(s, k, k / 2), k / 2);
    }
  }

  /** The earlier of k's children (the left one on a tie). */
  function EarlierChild(s: seq<Handler>, n: int, k: int): (j: int)
    requires 1 <= k && 2 * k <= n < |s|
    ensures j == 2 * k || (j == 2 * k + 1 && j <= n)
    ensures s[j].id <= s[2 * k].id && (2 * k + 1 <= n ==> s[j].id <= s[2 * k + 1].id)
  {
    if 2 * k < n && s[2 * k].id > s[2 * k + 1].id then 2 * k + 1 else 2 * k
  }

  /** sink(k) in a heap of n: while k has a child, exchange k with its
    * earlier child if that child is earlier than k. */
  function Sunk(s: seq<Handler>, n: int, k: int): (r: seq<Handler>)
    requires 0 <= n < |s| && 1 <= k
    ensures |r| == |s|
    ensures r[0] == s[0] && forall i :: n < i < |s| ==> r[i] == s[i]
    decreases n - k
  {
    if 2 * k <= n then
      var j := EarlierChild(s, n, k);
      if s[k].id > s[j].id then Sunk(Swap(s, k, j), n, j) else s
    else s
  }

  lemma {:induction false} SunkPermutes(s: seq<Handler>, n: int, k: int)
    requires 0 <= n < |s| && 1 <= k
    ensures multiset(Sunk(s, n, k)) == multiset(s)
    decreases n - k
  {
    if 2 * k <= n {
      var j := EarlierChild(s, n, k);
      if s[k].id > s[j].id {
        SwapPermutes(s, k, j);
        SunkPermutes(Swap(s, k, j), n, j);
      }
    }
  }

  /** The only edge allowed out of order is the one into k, and k's
    * parent is no later than k's children: what swim repairs. */
  ghost predicate SwimReady(s: seq<Handler>, n: int, k: int)
    requires 1 <= k <= n < |s|
  {
    (forall i :: 2 <= i <= n && i != k ==> EdgeOk(s, i)) &&
    (k > 1 ==> forall i :: 2 <= i <= n && i / 2 == k ==> s[k / 2].id <= s[i].id)
  }

  /** The only edges allowed out of order are those out of k, and k's
    * parent is no later than k's children: what sink repairs. */
  ghost predicate SinkReady(s: seq<Handler>, n: int, k: int)
    requires 1 <= k && n < |s|
  {
    (forall i :: 2 <= i <= n && i / 2 != k ==> EdgeOk(s, i)) &&
    (k > 1 ==> forall i :: 2 <= i <= n && i / 2 == k ==> s[k / 2].id <= s[i].id)
  }

  /** The handler at the root is the earliest one in the heap. */
  lemma {:induction false} RootIsEarliest(s: seq<Handler>, n: int, i: int)
    requires n < |s| && HeapOrdered(s, n) && 1 <= i <= n
    ensures s[1].id <= s[i].id
    decreases i
  {
    if i > 1 {
      assert EdgeOk(s, i);
      RootIsEarliest(s, n, i / 2);
    }
  }

  /** With a zero sentinel, swim never moves slot 0. */
  lemma {:induction false} SwumKeepsSentinel(s: seq<Handler>, k: int)
    requires 0 <= k < |s| && s[0].id == 0
    ensures Swum(s, k)[0] == s[0]
    decreases k
  {
    if k > 0 && s[k / 2].id > s[k].id {
      assert k / 2 > 0;
      SwumKeepsSentinel(Swap(s, k, k / 2), k / 2);
    }
  }

  /** One exchange of swim moves the disorder one level up. */
  lemma SwimStep(s: seq<Handler>, n: int, k: int)
    requires 1 < k <= n < |s| && SwimReady(s, n, k) && s[k / 2].id > s[k].id
    ensures SwimReady(Swap(s, k, k / 2), n, k / 2)
  {
    var p := k / 2;
    var t := Swap(s, k, k / 2);
    forall i | 2 <= i <= n && i != p
      ensures EdgeOk(t, i)
    {
      if i == k {
      } else if i / 2 == p {
        assert EdgeOk(s, i);
      } else if i / 2 == k {
        assert s[k / 2].id <= s[i].id;
      } else {
        assert EdgeOk(s, i);
      }
    }
    if p > 1 {
      forall i | 2 <= i <= n && i / 2 == p
        ensures t[p / 2].id <= t[i].id
      {
        assert EdgeOk(s, p);
        if i != k {
          assert EdgeOk(s, i);
        }
      }
    }
  }

  /** swim restores heap order from SwimReady. */
  lemma {:induction false} SwumOrdered(s: seq<Handler>, n: int, k: int)
    requires 1 <= k <= n < |s| && s[0].id == 0 && SwimReady(s, n, k)
    ensures HeapOrdered(Swum(s, k), n)
    decreases k
  {
    if s[k / 2].id > s[k].id {
      assert k > 1;
      SwimStep(s, n, k);
      SwumOrdered(Swap(s, k, k / 2), n, k / 2);
    }
  }

  /** One exchange of sink moves the disorder one level down. */
  lemma SinkStep(s: seq<Handler>, n: int, k: int, j: int)
    requires 1 <= k && 2 * k <= n < |s| && SinkReady(s, n, k)
    requires j == EarlierChild(s, n, k) && s[k].id > s[j].id
    ensures SinkReady(Swap(s, k, j), n, j)
  {
    var t := Swap(s, k, j);
    forall i | 2 <= i <= n && i / 2 != j
      ensures EdgeOk(t, i)
    {
      if i == j {
      } else if i / 2 == k {
        assert i == 2 * k || i == 2 * k + 1;
      } else if i == k {
        assert s[k / 2].id <= s[j].id;
      } else {
        assert EdgeOk(s, i);
      }
    }
    forall i | 2 <= i <= n && i / 2 == j
      ensures t[j / 2].id <= t[i].id
    {
      assert EdgeOk(s, i);
    }
  }

  /** sink restores heap order from SinkReady. */
  lemma {:induction false} SunkOrdered(s: seq<Handler>, n: int, k: int)
    requires 1 <= k && 0 <= n < |s| && SinkReady(s, n, k)
    ensures HeapOrdered(Sunk(s, n, k), n)
    decreases n - k
  {
    if 2 * k <= n {
      var j := EarlierChild(s, n, k);
      if s[k].id > s[j].id {
        SinkStep(s, n, k, j);
        SunkOrdered(Swap(s, k, j), n, j);
      } else {
        forall i | 2 <= i <= n && i / 2 == k
          ensures EdgeOk(s, i)
        {
          assert i == 2 * k || i == 2 * k + 1;
        }
      }
    }
  }

  /** The live handlers of two snapshots agree when the snapshots are
    * permutations of each other that agree outside slots 1..n. */
  lemma SameLive(s: seq<Handler>, r: seq<Handler>, n: int)
    requires 0 <= n < |s| == |r| && multiset(r) == multiset(s) && r[0] == s[0]
    requires forall i :: n < i < |s| ==> r[i] == s[i]
    ensures Live(r, n) == Live(s, n)
  {
    assert s == [s[0]] + s[1..n + 1] + s[n + 1..];
    assert r == [r[0]] + r[1..n + 1] + r[n + 1..];
    assert r[n + 1..] == s[n + 1..];
    assert multiset(s) == multiset{s[0]} + multiset(s[1..n + 1]) + multiset(s[n + 1..]);
    assert multiset(r) == multiset{r[0]} + multiset(r[1..n + 1]) + multiset(r[n + 1..]);
    assert multiset(r[1..n + 1]) == multiset(r) - multiset{r[0]} - multiset(r[n + 1..]);
    assert multiset(s[1..n + 1]) == multiset(s) - multiset{s[0]} - multiset(s[n + 1..]);
  }

  /** Appending handler h in slot n + 1 of a heap leaves only the edge
    * into n + 1 to repair. */
  lemma AppendReady(s: seq<Handler>, n: int, h: Handler)
    requires 0 <= n && n + 1 < |s| && HeapOrdered(s, n)
    ensures SwimReady(s[n + 1 := h], n + 1, n + 1)
    ensures Live(s[n + 1 := h], n + 1) == Live(s, n) + multiset{h}
  {
    var t := s[n + 1 := h];
    forall i | 2 <= i <= n ensures EdgeOk(t, i) {
      assert EdgeOk(s, i);
    }
    assert t[1..n + 2] == s[1..n + 1] + [h];
  }

  /** Moving the last handler into slot i and shrinking the heap leaves
    * slot i to repair by swim, when it is earlier than its parent. */
  lemma RemoveSwimReady(s: seq<Handler>, n: int, i: int)
    requires 1 < i < n < |s| && HeapOrdered(s, n)
    requires s[i / 2].id > s[n].id
    ensures SwimReady(Swap(s, i, n), n - 1, i)
  {
    var t := Swap(s, i, n);
    forall c | 2 <= c <= n - 1 && c / 2 == i
      ensures t[i / 2].id <= t[c].id
    {
      assert EdgeOk(s, i) && EdgeOk(s, c);
    }
    forall c | 2 <= c <= n - 1 && c != i
      ensures EdgeOk(t, c)
    {
      if c / 2 == i {
        assert EdgeOk(s, i) && EdgeOk(s, c);
      } else {
        assert EdgeOk(s, c);
      }
    }
  }

  /** ... and by sink otherwise. */
  lemma RemoveSinkReady(s: seq<Handler>, n: int, i: int)
    requires 1 <= i <= n < |s| && HeapOrdered(s, n)
    requires i < n ==> i == 1 || s[i / 2].id <= s[n].id
    ensures SinkReady(Swap(s, i, n), n - 1, i)
  {
    var t := Swap(s, i, n);
    forall c | 2 <= c <= n - 1 && c / 2 != i
      ensures EdgeOk(t, c)
    {
      if c != i {
        assert EdgeOk(s, c);
      }
    }
    if i > 1 {
      forall c | 2 <= c <= n - 1 && c / 2 == i
        ensures t[i / 2].id <= t[c].id
      {
        assert EdgeOk(s, i) && EdgeOk(s, c);
      }
    }
  }

  /** Removing slot i (swapping in the last handler) removes exactly
    * that handler from the live ones. */
  lemma RemoveLive(s: seq<Handler>, n: int, i: int)
    requires 1 <= i <= n < |s|
    ensures Live(Swap(s, i, n), n - 1) == Live(s, n) - multiset{s[i]}
  {
    var t := Swap(s, i, n);
    assert s[1..n + 1] == s[1..n] + [s[n]];
    assert t[1..n + 1] == t[1..n] + [t[n]];
    assert multiset(t[1..n + 1]) == multiset(s[1..n + 1]) by {
      assert t[1..n + 1] == s[1..n + 1][i - 1 := s[n]][n - 1 := s[i]];
    }
  }

  /** The repair delete_id needs after moving the last handler into
    * slot i of a heap of n: swim when slot i is earlier than its
    * parent, sink otherwise. */
  function Repaired(t: seq<Handler>, n: int, i: int): (r: seq<Handler>)
    requires 1 <= i && 0 <= n < |t|
  {
    if i <= n && i > 1 && t[i / 2].id > t[i].id then Swum(t, i) else Sunk(t, n, i)
  }

  /** Removing slot i and repairing keeps the heap order and removes
    * exactly the handler of slot i. */
  lemma RemoveRepairs(s: seq<Handler>, n: int, i: int)
    requires 1 <= i <= n < |s| && s[0].id == 0
    ensures |Repaired(Swap(s, i, n), n - 1, i)| == |s|
    ensures Repaired(Swap(s, i, n), n - 1, i)[0] == s[0]
    ensures Live(Repaired(Swap(s, i, n), n - 1, i), n - 1) == Live(s, n) - multiset{s[i]}
  {
    var t := Swap(s, i, n);
    RemoveLive(s, n, i);
    RepairedLive(t, n - 1, i);
    calc {
      Live(Repaired(t, n - 1, i), n - 1);
      Live(t, n - 1);
      Live(s, n) - multiset{s[i]};
    }
  }

  /** Removing slot i and repairing keeps the heap order. */
  lemma RepairedOrdered(s: seq<Handler>, n: int, i: int)
    requires 1 <= i <= n < |s| && s[0].id == 0 && HeapOrdered(s, n)
    ensures HeapOrdered(Repaired(Swap(s, i, n), n - 1, i), n - 1)
  {
    var t := Swap(s, i, n);
    if i <= n - 1 && i > 1 && t[i / 2].id > t[i].id {
      RemoveSwimReady(s, n, i);
      SwumOrdered(t, n - 1, i);
    } else {
      RemoveSinkReady(s, n, i);
      SunkOrdered(t, n - 1, i);
    }
  }

  /** The repair only permutes the live handlers. */
  lemma RepairedLive(t: seq<Handler>, n: int, i: int)
    requires 1 <= i && 0 <= n < |t| && t[0].id == 0
    ensures Repaired(t, n, i)[0] == t[0] && |Repaired(t, n, i)| == |t|
    ensures Live(Repaired(t, n, i), n) == Live(t, n)
  {
    if i <= n && i > 1 && t[i / 2].id > t[i].id {
      SwumKeepsSentinel(t, i);
      SwumPermutes(t, i);
      SameLive(t, Swum(t, i), n);
    } else {
      SunkPermutes(t, n, i);
      SameLive(t, Sunk(t, n, i), n);
    }
  }

  // ---------------------------------------------------------------
  // delete_id's search
  // ---------------------------------------------------------------

  /** The first slot from i on (up to n) holding id, or n + 1. */
  function FirstWithId(s: seq<Handler>, n: int, id: Word, i: int): (r: int)
    requires 1 <= i && n < |s|
    ensures i <= r && (r <= n || r == i || r == n + 1)
    ensures r <= n ==> s[r].id == id
    ensures forall j :: i <= j < r && j <= n ==> s[j].id != id
    decreases n + 1 - i
  {
    if i > n then i
    else if s[i].id == id then i
    else FirstWithId(s, n, id, i + 1)
  }

  // ---------------------------------------------------------------
  // Findings: the insert bound and delete_id as written
  // ---------------------------------------------------------------

  /** The slot insert_handler writes, or None when it refuses; the guard
    * as written is n > MAX_HANDLER_SIZE. */
  function InsertSlotAsWritten(n: int): (r: Option<int>)
    ensures r.Some? <==> n <= MAX_HANDLER_SIZE
    ensures r.Some? ==> r.value == n + 1
  {
    if n > MAX_HANDLER_SIZE then None else Some(n + 1)
  }

  /** With 32 handlers queued the guard lets a 33rd in, written to
    * pq[33], one past the end of the 33-slot array. */
  lemma InsertOverflowsAsWritten()
    ensures InsertSlotAsWritten(MAX_HANDLER_SIZE).Some?
    ensures InsertSlotAsWritten(MAX_HANDLER_SIZE).value >= MAX_HANDLER_SIZE + 1
  {
  }

  /** The intended guard, n >= MAX_HANDLER_SIZE. */
  function InsertSlot(n: int): (r: Option<int>)
    ensures r.Some? <==> n < MAX_HANDLER_SIZE
    ensures r.Some? ==> r.value == n + 1
  {
    if n >= MAX_HANDLER_SIZE then None else Some(n + 1)
  }

  /** Every slot the intended guard lets insert write is inside the
    * array, for every heap size the heap can have. */
  lemma InsertSlotInBounds(n: int)
    requires 0 <= n <= MAX_HANDLER_SIZE
    ensures InsertSlot(n).Some? ==> 1 <= InsertSlot(n).value < MAX_HANDLER_SIZE + 1
  {
  }

  /** delete_id as written: find the first slot with id, move the last
    * handler there, shrink, and only sink. None when id is absent. */
  function DeleteIdAsWritten(s: seq<Handler>, n: int, id: Word): (r: Option<seq<Handler>>)
    requires 0 <= n < |s|
    ensures r.None? <==> FirstWithId(s, n, id, 1) > n
    ensures r.Some? ==> |r.value| == |s|
  {
    var i := FirstWithId(s, n, id, 1);
    if i > n then None else Some(Sunk(Swap(s, i, n), n - 1, i))
  }

  function H(id: Word): Handler { Handler(id, 0, 0, 0, 0) }

  /** Deleting 11 from the heap 1, 10, 2, 11, 12, 3 moves 3 under 10
    * and sink cannot move it up: the heap order is lost. */
  lemma DeleteIdAsWrittenBreaksOrder()
    ensures HeapOrdered([H(0), H(1), H(10), H(2), H(11), H(12), H(3)], 6)
    ensures DeleteIdAsWritten([H(0), H(1), H(10), H(2), H(11), H(12), H(3)], 6, 11).Some?
    ensures !HeapOrdered(DeleteIdAsWritten([H(0), H(1), H(10), H(2), H(11), H(12), H(3)], 6, 11).value, 5)
  {
    var s := [H(0), H(1), H(10), H(2), H(11), H(12), H(3)];
    forall i | 2 <= i <= 6 ensures EdgeOk(s, i) {
      assert i == 2 || i == 3 || i == 4 || i == 5 || i == 6;
    }
    assert FirstWithId(s, 6, 11, 4) == 4;
    assert FirstWithId(s, 6, 11, 1) == 4;
    var t := Swap(s, 4, 6);
    assert Sunk(t, 5, 4) == t;
    assert DeleteIdAsWritten(s, 6, 11).value == t;
    assert !EdgeOk(t, 4);
  }

  // ---------------------------------------------------------------
  // Finding: the firing test truncates to int
  // ---------------------------------------------------------------

  /** `int difference = obj.id - now`: the 64-bit difference wraps and
    * is then truncated to a signed 32-bit int. */
  function DifferenceAsWritten(id: Word, now: Word): (d: int)
    ensures -0x8000_0000 <= d < 0x8000_0000
  {
    var low := ((id - now) % WORD_MOD) % U32_MOD;
    if low >= 0x8000_0000 then low - U32_MOD else low
  }

  /** The truncated difference keeps the low 32 bits of the true one. */
  lemma DifferenceKeepsLowBits(id: Word, now: Word)
    ensures DifferenceAsWritten(id, now) % U32_MOD == (id - now) % U32_MOD
  {
    var x := id - now;
    if x < 0 {
      assert x % WORD_MOD == x + WORD_MOD;
      assert (x + U32_MOD * U32_MOD) % U32_MOD == x % U32_MOD;
    }
  }

  /** The firing test as written. */
  predicate DueAsWritten(id: Word, now: Word) {
    var d := DifferenceAsWritten(id, now);
    d < 0 || d <= TOLERANCE
  }

  /** A deadline 2^32 + 100 microseconds (about 71 minutes) away passes
    * the test as written and would fire at once. */
  lemma DueAsWrittenFiresEarly()
    ensures DueAsWritten(0x1_0000_0064, 0)
    ensures 0x1_0000_0064 - 0 > TOLERANCE
  {
  }

  /** The intended test: the deadline is past or within the tolerance. */
  predicate Due(id: Word, now: Word) {
    id - now <= TOLERANCE
  }

  /** The intended test agrees with the one as written whenever the
    * deadline is within 2^31 microseconds of now. */
  lemma DueAgreesNearNow(id: Word, now: Word)
    requires -0x8000_0000 <= id - now < 0x8000_0000
    ensures Due(id, now) <==> DueAsWritten(id, now)
  {
    assert DifferenceAsWritten(id, now) == id - now;
  }

  /** update_timer_count: the count in milliseconds, clamped to the
    * largest value the 16-bit register takes. */
  function TimerCount(delta: Word, timerMax: int): (r: int)
    requires 0 <= timerMax < 0x1_0000
    ensures 0 <= r <= timerMax && r * 1000 <= delta
    ensures r == timerMax || delta < (r + 1) * 1000
  {
    if delta / 1000 >= timerMax then timerMax else delta / 1000
  }

  /** The wrapped 64-bit `obj->id - now` handed to update_timer_count. */
  function Delta(id: Word, now: Word): Word {
    (id - now) % WORD_MOD
  }

  // ---------------------------------------------------------------
  // The heap in place
  // ---------------------------------------------------------------

  class TimerHeap {
    var pq: array<Handler>
    var n: int

    ghost predicate Valid()
      reads this, pq
    {
      pq.Length == MAX_HANDLER_SIZE + 1 && 0 <= n <= MAX_HANDLER_SIZE &&
      pq[0].id == 0 && HeapOrdered(pq[..], n)
    }

    /** The queued handlers. */
    ghost function Contents(): multiset<Handler>
      reads this, pq
      requires 0 <= n < pq.Length
    {
      Live(pq[..], n)
    }

    /** The zero-initialised static heap. */
    constructor ()
      ensures Valid() && n == 0 && Contents() == multiset{} && fresh(pq)
    {
      pq := new Handler[MAX_HANDLER_SIZE + 1](_ => ZeroHandler());
      n := 0;
    }

    method Swim(k: int)
      requires 0 <= k < pq.Length
      modifies pq
      ensures pq[..] == Swum(old(pq[..]), k)
    {
      var i := k;
      while i > 0 && pq[i / 2].id > pq[i].id
        invariant 0 <= i < pq.Length
        invariant Swum(pq[..], i) == Swum(old(pq[..]), k)
        decreases i
      {
        ghost var before := pq[..];
        pq[i], pq[i / 2] := pq[i / 2], pq[i];
        assert pq[..] == Swap(before, i, i / 2);
        i := i / 2;
      }
    }

    method Sink(k: int)
      requires 1 <= k && 0 <= n < pq.Length
      modifies pq
      ensures pq[..] == Sunk(old(pq[..]), n, k)
    {
      var i := k;
      while 2 * i <= n
        invariant 1 <= i
        invariant Sunk(pq[..], n, i) == Sunk(old(pq[..]), n, k)
        decreases n - i
      {
        ghost var before := pq[..];
        var j := EarlierChild(pq[..], n, i);
        if !(pq[i].id > pq[j].id) {
          break;
        }
        pq[i], pq[j] := pq[j], pq[i];
        assert pq[..] == Swap(before, i, j);
        i := j;
      }
    }

    /** insert_handler with the intended bound: refuses (-1) once the
      * heap is full, otherwise queues h and keeps the heap order. */
    method Insert(h: Handler) returns (r: int)
      requires Valid()
      modifies this, pq
      ensures Valid() && pq == old(pq)
      ensures r == -1 <==> InsertSlot(old(n)).None?
      ensures r == -1 ==> n == old(n) && pq[..] == old(pq[..])
      ensures r == 0 ==> n == old(n) + 1 && Contents() == old(Contents()) + multiset{h}
      ensures r == 0 || r == -1
    {
      if n >= MAX_HANDLER_SIZE {
        return -1;
      }
      ghost var s := pq[..];
      AppendReady(s, n, h);
      n := n + 1;
      pq[n] := h;
      assert pq[..] == s[n := h];
      ghost var s1 := pq[..];
      Swim(n);
      SwumOrdered(s1, n, n);
      SwumKeepsSentinel(s1, n);
      SwumPermutes(s1, n);
      SameLive(s1, pq[..], n);
      r := 0;
    }

    /** peep_min: the earliest handler, None for an empty heap. */
    function PeepMin(): (r: Option<Handler>)
      reads this, pq
      requires Valid()
      ensures r.None? <==> n == 0
      ensures r.Some? ==> r.value in Contents() &&
                          forall i :: 1 <= i <= n ==> r.value.id <= pq[i].id
    {
      if n == 0 then None
      else
        assert pq[..][1] in pq[..][1..n + 1];
        assert forall i :: 1 <= i <= n ==> pq[1].id <= pq[i].id by {
          forall i | 1 <= i <= n ensures pq[1].id <= pq[i].id {
            RootIsEarliest(pq[..], n, i);
          }
        }
        Some(pq[1])
    }

    /** delete_min: None for an empty heap, otherwise the earliest
      * handler, removed. */
    method DeleteMin() returns (r: Option<Handler>)
      requires Valid()
      modifies this, pq
      ensures Valid() && pq == old(pq)
      ensures r == old(PeepMin())
      ensures r.None? ==> n == old(n) && pq[..] == old(pq[..])
      ensures r.Some? ==> n == old(n) - 1 && Contents() == old(Contents()) - multiset{r.value}
    {
      if n == 0 {
        return None;
      }
      ghost var s := pq[..];
      pq[1], pq[n] := pq[n], pq[1];
      assert pq[..] == Swap(s, 1, n);
      RemoveSinkReady(s, n, 1);
      RemoveLive(s, n, 1);
      n := n - 1;
      ghost var s1 := pq[..];
      Sink(1);
      SunkOrdered(s1, n, 1);
      SunkPermutes(s1, n, 1);
      SameLive(s1, pq[..], n);
      r := Some(pq[n + 1]);
    }

    /** delete_id's search loop. */
    method Find(id: Word) returns (i: int)
      requires Valid()
      ensures i == FirstWithId(pq[..], n, id, 1)
    {
      i := 1;
      while i <= n && pq[i].id != id
        invariant 1 <= i <= n + 1
        invariant FirstWithId(pq[..], n, id, i) == FirstWithId(pq[..], n, id, 1)
        decreases n + 1 - i
      {
        i := i + 1;
      }
    }

    /** delete_id with the heap repaired in both directions: -1 and no
      * change when no handler has id; otherwise the first such handler
      * is removed and the heap order kept. */
    method DeleteId(id: Word) returns (r: int)
      requires Valid()
      modifies this, pq
      ensures Valid() && pq == old(pq)
      ensures r == -1 <==> FirstWithId(old(pq[..]), old(n), id, 1) > old(n)
      ensures r == -1 ==> n == old(n) && pq[..] == old(pq[..])
      ensures r == 0 ==> (n == old(n) - 1 &&
        Contents() == old(Contents()) - multiset{old(pq[FirstWithId(pq[..], n, id, 1)])})
      ensures r == 0 || r == -1
    {
      var i := Find(id);
      if i > n {
        return -1;
      }
      RemoveAt(i);
      r := 0;
    }

    /** The removal part of delete_id: the last handler moves into slot
      * i, the heap shrinks, and slot i is swum up when it is earlier
      * than its parent and sunk otherwise. */
    method RemoveAt(i: int)
      requires Valid() && 1 <= i <= n
      modifies this, pq
      ensures Valid() && pq == old(pq)
      ensures n == old(n) - 1 && Contents() == old(Contents()) - multiset{old(pq[i])}
    {
      ghost var s := pq[..];
      RemoveRepairs(s, n, i);
      RepairedOrdered(s, n, i);
      pq[i], pq[n] := pq[n], pq[i];
      ghost var t := pq[..];
      assert t == Swap(s, i, n);
      n := n - 1;
      if i <= n && i > 1 && pq[i / 2].id > pq[i].id {
        Swim(i);
      } else {
        Sink(i);
      }
      assert pq[..] == Repaired(t, n, i);
    }
  }

  // ---------------------------------------------------------------
  // The driver entry points
  // ---------------------------------------------------------------

  /** The id register_timer hands out: the deadline delay + now in a
    * 64-bit word. */
  function DeadlineId(delay: Word, now: Word): (id: Word)
    ensures id == delay + now || id == delay + now - WORD_MOD
  {
    (delay + now) % WORD_MOD
  }

  /** The id is not unique and may be the failure value: delay 10 at time
    * 0 and delay 5 at time 5 get the same id, and a deadline that wraps to
    * 0 reads as a failed registration although the handler is queued. */
  lemma DeadlineIdsCollide()
    ensures DeadlineId(10, 0) == DeadlineId(5, 5) == 10
    ensures DeadlineId(WORD_MOD - 5, 5) == 0
  {
  }

  /** register_timer at time now: 0 when the queue is full, otherwise
    * the deadline delay + now as the id, with the hardware programmed
    * for the earliest deadline. */
  method RegisterTimer(heap: TimerHeap, delay: Word, now: Word, callback: nat, data: nat, timerMax: int)
    returns (id: Word, act: Action)
    requires heap.Valid() && 0 <= timerMax < 0x1_0000
    modifies heap, heap.pq
    ensures heap.Valid() && heap.pq == old(heap.pq)
    ensures InsertSlot(old(heap.n)).None? ==>
      id == 0 && act == NoChange && heap.n == old(heap.n) && heap.pq[..] == old(heap.pq[..])
    ensures InsertSlot(old(heap.n)).Some? ==>
      id == DeadlineId(delay, now) &&
      heap.Contents() == old(heap.Contents()) + multiset{Handler(id, callback, data, delay, now)} &&
      heap.PeepMin().Some? &&
      act == Program(TimerCount(Delta(heap.PeepMin().value.id, now), timerMax))
  {
    var deadline := DeadlineId(delay, now);
    var r := heap.Insert(Handler(deadline, callback, data, delay, now));
    if r == -1 {
      return 0, NoChange;
    }
    var min := heap.PeepMin();
    id := deadline;
    act := Program(TimerCount(Delta(min.value.id, now), timerMax));
  }

  /** remove_timer: CLOCK_R_FAIL when no handler has the id; otherwise
    * the handler is removed and the timer stopped or reprogrammed. */
  method RemoveTimer(heap: TimerHeap, id: Word, now: Word, timerMax: int)
    returns (r: int, act: Action)
    requires heap.Valid() && 0 <= timerMax < 0x1_0000
    modifies heap, heap.pq
    ensures heap.Valid() && heap.pq == old(heap.pq)
    ensures r == CLOCK_R_FAIL <==> FirstWithId(old(heap.pq[..]), old(heap.n), id, 1) > old(heap.n)
    ensures r == CLOCK_R_FAIL ==>
      act == NoChange && heap.n == old(heap.n) && heap.pq[..] == old(heap.pq[..])
    ensures r == CLOCK_R_OK ==> (heap.n == old(heap.n) - 1 &&
      heap.Contents() ==
        old(heap.Contents()) - multiset{old(heap.pq[FirstWithId(heap.pq[..], heap.n, id, 1)])})
    ensures r == CLOCK_R_OK && heap.n == 0 ==> act == Stop
    ensures r == CLOCK_R_OK && heap.n > 0 ==>
      act == Program(TimerCount(Delta(heap.PeepMin().value.id, now), timerMax))
    ensures r == CLOCK_R_OK || r == CLOCK_R_FAIL
  {
    var e := heap.DeleteId(id);
    if e != 0 {
      return CLOCK_R_FAIL, NoChange;
    }
    r := CLOCK_R_OK;
    if heap.n == 0 {
      act := Stop;
    } else {
      var min := heap.PeepMin();
      act := Program(TimerCount(Delta(min.value.id, now), timerMax));
    }
  }

  /** timer_interrupt at time now, with the intended firing test: a due
    * earliest handler is removed and returned for its callback, and the
    * timer stopped or reprogrammed; an early interrupt only reprograms. */
  method TimerInterrupt(heap: TimerHeap, now: Word, timerMax: int)
    returns (r: int, fired: Option<Handler>, act: Action)
    requires heap.Valid() && heap.n > 0 && 0 <= timerMax < 0x1_0000
    modifies heap, heap.pq
    ensures heap.Valid() && heap.pq == old(heap.pq) && r == CLOCK_R_OK
    ensures fired.Some? <==> Due(old(heap.PeepMin()).value.id, now)
    ensures fired.Some? ==>
      fired == old(heap.PeepMin()) &&
      heap.Contents() == old(heap.Contents()) - multiset{fired.value} &&
      (heap.n == 0 ==> act == Stop) &&
      (heap.n > 0 ==> act == Program(TimerCount(Delta(heap.PeepMin().value.id, now), timerMax)))
    ensures fired.None? ==>
      heap.n == old(heap.n) && heap.pq[..] == old(heap.pq[..]) &&
      act == Program(TimerCount(Delta(old(heap.PeepMin()).value.id, now), timerMax))
  {
    var obj := heap.PeepMin();
    if Due(obj.value.id, now) {
      fired := heap.DeleteMin();
      if heap.n == 0 {
        act := Stop;
      } else {
        var min := heap.PeepMin();
        act := Program(TimerCount(Delta(min.value.id, now), timerMax));
      }
    } else {
      fired := None;
      act := Program(TimerCount(Delta(obj.value.id, now), timerMax));
    }
    r := CLOCK_R_OK;
  }
}
