/** The console device (vfs/console.c): a ring buffer filled by the
  * serial interrupt and drained into the reading process's buffer, and
  * the rule that only one process may have the console open for reading. */
module Console {
  import opened Common

  const BUFFER_SIZE: nat := 3000

  /** How many characters one pass of putchar_to_user's inner loop takes
    * from `queue` for a read with `resid` bytes still wanted: it stops
    * after the first '\n', when `resid` is used up, or when the buffer is
    * empty. */
  function Take(queue: seq<char>, resid: nat): (k: nat)
    ensures k <= |queue| && k <= resid
  {
    if queue == [] || resid == 0 then 0
    else if resid == 1 || queue[0] == '\n' then 1
    else 1 + Take(queue[1..], resid - 1)
  }

  /** Take stops exactly where a read must: never past `resid` or the
    * buffered characters, no newline before the last character taken, and
    * it stops short of both bounds only right after a newline. */
  lemma {:induction false} TakeStops(queue: seq<char>, resid: nat)
    ensures forall i :: 0 <= i < Take(queue, resid) - 1 ==> queue[i] != '\n'
    ensures Take(queue, resid) < resid && Take(queue, resid) < |queue| ==>
      Take(queue, resid) > 0 && queue[Take(queue, resid) - 1] == '\n'
    ensures Take(queue, resid) == 0 <==> queue == [] || resid == 0
  {
    if queue != [] && resid > 1 && queue[0] != '\n' {
      TakeStops(queue[1..], resid - 1);
      forall i | 0 <= i < Take(queue, resid) - 1
        ensures queue[i] != '\n'
      {
        if i > 0 {
          assert queue[i] == queue[1..][i - 1];
        }
      }
    }
  }

  /** Whether a pass that took `taken` characters answers the read: it
    * used up `resid` or ended on a newline. */
  predicate Answers(taken: seq<char>, resid: nat)
  {
    taken != [] && (|taken| == resid || taken[|taken| - 1] == '\n')
  }

  /** The ring position `i` characters after `head`. */
  function Ring(head: nat, i: nat): nat
  {
    (head + i) % BUFFER_SIZE
  }

  /** `struct con_softc` without the serial handle. `owner` is the reading
    * process (the `proc` field, None for NULL); `queue` is the ghost view
    * of the characters waiting, oldest first. */
  class ConSoftc {
    var buffer: array<char>
    var head: nat
    var tail: nat
    var n: nat
    var owner: Option<nat>
    var vaddr: Word
    ghost var queue: seq<char>

    ghost predicate Valid()
      reads this, buffer
    {
      buffer.Length == BUFFER_SIZE && head < BUFFER_SIZE && tail < BUFFER_SIZE &&
      n <= BUFFER_SIZE && tail == Ring(head, n) && |queue| == n &&
      forall i :: 0 <= i < n ==> queue[i] == buffer[Ring(head, i)]
    }

    /** con_initialize: an empty buffer and no reader. */
    constructor Initialize()
      ensures Valid() && fresh(buffer)
      ensures queue == [] && owner.None? && vaddr == 0 && head == 0
    {
      buffer := new char[BUFFER_SIZE];
      head, tail, n := 0, 0, 0;
      owner := None;
      vaddr := 0;
      queue := [];
    }

    /** read_handler: a character from the serial line is queued, unless
      * the buffer is full, in which case it is dropped. */
    method ReadHandler(c: char)
      requires Valid()
      modifies this, buffer
      ensures Valid() && buffer == old(buffer)
      ensures queue == if old(n) < BUFFER_SIZE then old(queue) + [c] else old(queue)
      ensures owner == old(owner) && vaddr == old(vaddr)
    {
      if n < BUFFER_SIZE {
        RingDistinct(head, n);
        buffer[tail] := c;
        tail := (tail + 1) % BUFFER_SIZE;
        n := n + 1;
        queue := queue + [c];
        RingNext(head, n - 1);
      }
    }

    /** One character out of the buffer, as putchar_to_user takes it: the
      * oldest one. */
    method TakeChar() returns (c: char)
      requires Valid() && n > 0
      modifies this
      ensures Valid() && buffer == old(buffer)
      ensures c == old(queue)[0] && queue == old(queue)[1..]
      ensures owner == old(owner) && vaddr == old(vaddr)
    {
      c := buffer[head];
      ghost var h0 := head;
      head := (head + 1) % BUFFER_SIZE;
      n := n - 1;
      queue := queue[1..];
      RingShift(h0, n);
      forall i | 0 <= i < n
        ensures queue[i] == buffer[Ring(head, i)]
      {
        RingShift(h0, i);
      }
    }

    /** The inner loop of putchar_to_user for a read into the user buffer
      * at `userVaddr` that still wants `resid` bytes, `idx` of them
      * already delivered: it copies buffered characters in order until the
      * read is answered or the buffer runs dry. `reply` is the byte count
      * replied to the reader, None when the pass ends by yielding for
      * more input. A read whose buffer address is 0 is not served. */
    method DeliverPass(userVaddr: Word, resid: nat, idx: nat) returns (delivered: seq<char>, reply: Option<nat>)
      requires Valid()
      modifies this
      ensures Valid() && buffer == old(buffer) && owner == old(owner) && vaddr == old(vaddr)
      ensures userVaddr == 0 ==> delivered == [] && reply.None? && queue == old(queue)
      ensures userVaddr != 0 ==>
        delivered == old(queue)[..Take(old(queue), resid)] && queue == old(queue)[|delivered|..]
      ensures reply.Some? <==> userVaddr != 0 && Answers(delivered, resid)
      ensures reply.Some? ==> reply.value == idx + |delivered|
    {
      delivered := [];
      reply := None;
      if userVaddr == 0 || resid == 0 {
        return;
      }
      delivered, reply := Deliver(resid, idx);
    }

    /** The loop of DeliverPass for a served read with `resid > 0`. */
    method Deliver(resid: nat, idx: nat) returns (delivered: seq<char>, reply: Option<nat>)
      requires Valid() && resid > 0
      modifies this
      ensures Valid() && buffer == old(buffer) && owner == old(owner) && vaddr == old(vaddr)
      ensures delivered == old(queue)[..Take(old(queue), resid)] && queue == old(queue)[|delivered|..]
      ensures reply.Some? <==> Answers(delivered, resid)
      ensures reply.Some? ==> reply.value == idx + |delivered|
    {
      delivered := [];
      reply := None;
      ghost var q0 := queue;
      var left := resid;
      var i := idx;
      while n > 0
        invariant Valid() && buffer == old(buffer) && owner == old(owner) && vaddr == old(vaddr)
        invariant |delivered| <= |q0| && delivered == q0[..|delivered|] && queue == q0[|delivered|..]
        invariant 0 < left == resid - |delivered| && i == idx + |delivered|
        invariant Take(q0, resid) == |delivered| + Take(queue, left)
        invariant delivered == [] || delivered[|delivered| - 1] != '\n'
        decreases n
      {
        ghost var before := queue;
        var c := TakeChar();
        DeliverStep(q0, resid, delivered, before, left);
        delivered := delivered + [c];
        left := left - 1;
        if left == 0 || c == '\n' {
          return delivered, Some(i + 1);
        }
        i := i + 1;
      }
    }

    /** con_eachopen: opening for reading (O_RDONLY or O_RDWR) succeeds only
      * while nobody reads the console, and makes the opener its reader;
      * any other access mode is accepted and records nothing. */
    method EachOpen(openflags: bv32, cur: Option<nat>) returns (result: int)
      modifies this
      ensures var how := openflags & O_ACCMODE;
        if how == O_RDONLY || how == O_RDWR then
          if old(owner).None? then result == 0 && owner == cur else result == -1 && owner == old(owner)
        else result == 0 && owner == old(owner)
      ensures queue == old(queue) && head == old(head) && tail == old(tail) && n == old(n) && vaddr == old(vaddr)
    {
      var how := openflags & O_ACCMODE;
      if how == O_RDONLY || how == O_RDWR {
        if owner.None? {
          owner := cur;
          return 0;
        } else {
          return -1;
        }
      }
      return 0;
    }

    /** con_reclaim: when the current process is the reader, the buffer is
      * emptied and the console has no reader; otherwise nothing changes. */
    method Reclaim(cur: Option<nat>) returns (result: int)
      requires Valid()
      modifies this
      ensures Valid() && buffer == old(buffer) && result == 0
      ensures cur == old(owner) ==> queue == [] && owner.None? && vaddr == 0 && head == 0
      ensures cur != old(owner) ==>
        queue == old(queue) && owner == old(owner) && vaddr == old(vaddr) && head == old(head) && tail == old(tail)
    {
      if cur == owner {
        vaddr, n, head, tail := 0, 0, 0, 0;
        owner := None;
        queue := [];
      }
      return 0;
    }
  }

  /** One character of a pass moves from the buffer to the delivered
    * prefix of the queue the pass started with. */
  lemma DeliverStep(q0: seq<char>, resid: nat, delivered: seq<char>, queue: seq<char>, left: nat)
    requires |delivered| <= |q0| && delivered == q0[..|delivered|] && queue == q0[|delivered|..]
    requires queue != [] && left > 0 && Take(q0, resid) == |delivered| + Take(queue, left)
    ensures delivered + [queue[0]] == q0[..|delivered| + 1] && queue[1..] == q0[|delivered| + 1..]
    ensures left == 1 || queue[0] == '\n' ==> Take(q0, resid) == |delivered| + 1
    ensures !(left == 1 || queue[0] == '\n') ==> Take(q0, resid) == |delivered| + 1 + Take(queue[1..], left - 1)
  {
  }

  /** Consecutive ring positions below BUFFER_SIZE apart are distinct. */
  lemma RingDistinct(head: nat, n: nat)
    requires head < BUFFER_SIZE && n < BUFFER_SIZE
    ensures forall i :: 0 <= i < n ==> Ring(head, i) != Ring(head, n)
  {
    forall i | 0 <= i < n
      ensures Ring(head, i) != Ring(head, n)
    {
      if head + n < BUFFER_SIZE {
      } else if head + i >= BUFFER_SIZE {
        assert Ring(head, i) == head + i - BUFFER_SIZE;
        assert Ring(head, n) == head + n - BUFFER_SIZE;
      } else {
        assert Ring(head, n) == head + n - BUFFER_SIZE;
      }
    }
  }

  lemma RingNext(head: nat, n: nat)
    requires head < BUFFER_SIZE
    ensures (Ring(head, n) + 1) % BUFFER_SIZE == Ring(head, n + 1)
  {
  }

  lemma RingShift(head: nat, i: nat)
    requires head < BUFFER_SIZE
    ensures Ring((head + 1) % BUFFER_SIZE, i) == Ring(head, i + 1)
  {
  }
}
