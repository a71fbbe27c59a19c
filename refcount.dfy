/** The reference-count discipline shared by vnodes (vfs/vnode.c) and open
  * files (syscall/openfile.c): a count starts at 1, an incref adds one, a
  * decref above 1 takes one away, and a decref at 1 does not decrement but
  * hands the last reference to the destructor. */
module RefCount {
  datatype RefOp = Inc | Dec

  /** What a run of reference operations does to a live object: it is
    * still alive with count `rc`, or the operation at index `step`
    * reclaimed it (later operations would touch a freed object). */
  datatype Outcome = Alive(rc: nat) | Reclaimed(step: nat)

  /** Runs `ops` from a live count `rc`. */
  function Run(rc: nat, ops: seq<RefOp>): (o: Outcome)
    requires rc > 0
    decreases ops
    ensures o.Alive? ==> o.rc > 0
    ensures o.Reclaimed? ==> o.step < |ops|
  {
    if ops == [] then Alive(rc)
    else if ops[0] == Inc then Shift(Run(rc + 1, ops[1..]))
    else if rc == 1 then Reclaimed(0)
    else Shift(Run(rc - 1, ops[1..]))
  }

  /** An outcome seen from one operation earlier. */
  function Shift(o: Outcome): Outcome
  {
    match o
      case Alive(rc) => Alive(rc)
      case Reclaimed(step) => Reclaimed(step + 1)
  }

  /** The count `rc` would reach after `ops` if nothing were reclaimed:
    * one more per Inc, one less per Dec. */
  function Balance(rc: int, ops: seq<RefOp>): int
    decreases ops
  {
    if ops == [] then rc
    else Balance(if ops[0] == Inc then rc + 1 else rc - 1, ops[1..])
  }

  /** True when the operation at `i` is a decref that finds the count at 1. */
  predicate LastRef(rc: nat, ops: seq<RefOp>, i: nat)
    requires i < |ops|
  {
    ops[i] == Dec && Balance(rc, ops[..i]) == 1
  }

  lemma {:induction false} BalanceCons(rc: int, op: RefOp, ops: seq<RefOp>, i: nat)
    requires i <= |ops|
    ensures ([op] + ops)[..i + 1] == [op] + ops[..i]
    ensures Balance(rc, ([op] + ops)[..i + 1]) == Balance(if op == Inc then rc + 1 else rc - 1, ops[..i])
  {
    assert ([op] + ops)[..i + 1] == [op] + ops[..i];
    assert ([op] + ops[..i])[1..] == ops[..i];
  }

  /** The object is reclaimed exactly at the first decref that finds the
    * count at 1; while it lives its count is the balance of the
    * operations, never below 1. */
  lemma {:induction false} RunReclaimsAtLastRef(rc: nat, ops: seq<RefOp>)
    requires rc > 0
    decreases ops
    ensures Run(rc, ops).Alive? ==>
      Run(rc, ops).rc == Balance(rc, ops) &&
      forall i :: 0 <= i < |ops| ==> !LastRef(rc, ops, i) && Balance(rc, ops[..i]) >= 1
    ensures Run(rc, ops).Reclaimed? ==>
      LastRef(rc, ops, Run(rc, ops).step) &&
      forall i :: 0 <= i < Run(rc, ops).step ==> !LastRef(rc, ops, i) && Balance(rc, ops[..i]) >= 1
  {
    if ops != [] {
      var op, rest := ops[0], ops[1..];
      assert ops == [op] + rest;
      var rc' := if op == Inc then rc + 1 else rc - 1;
      assert Balance(rc, ops[..0]) == rc by { assert ops[..0] == []; }
      if op == Dec && rc == 1 {
        assert LastRef(rc, ops, 0);
      } else {
        RunReclaimsAtLastRef(rc', rest);
        assert Balance(rc, ops) == Balance(rc', rest);
        forall i | 1 <= i <= |ops|
          ensures Balance(rc, ops[..i]) == Balance(rc', rest[..i - 1])
        {
          BalanceCons(rc, op, rest, i - 1);
        }
      }
    }
  }

  /** A count `rc` raised by `n` increfs survives `rc + n - 1` decrefs
    * that follow, at count 1, and the `rc + n`-th reclaims it. */
  lemma {:induction false} BalancedReleases(rc: nat, n: nat)
    requires rc > 0
    decreases n
    ensures Run(rc, seq(n, _ => Inc) + seq(rc + n - 1, _ => Dec)) == Alive(1)
    ensures Run(rc, seq(n, _ => Inc) + seq(rc + n, _ => Dec)) == Reclaimed(rc + 2 * n - 1)
  {
    if n == 0 {
      assert seq(0, _ => Inc) + seq(rc - 1, _ => Dec) == seq(rc - 1, _ => Dec);
      assert seq(0, _ => Inc) + seq(rc, _ => Dec) == seq(rc, _ => Dec);
      DecsFrom(rc);
    } else {
      BalancedReleases(rc + 1, n - 1);
      var a := seq(n, _ => Inc) + seq(rc + n - 1, _ => Dec);
      var b := seq(n, _ => Inc) + seq(rc + n, _ => Dec);
      assert a[1..] == seq(n - 1, _ => Inc) + seq(rc + 1 + (n - 1) - 1, _ => Dec);
      assert b[1..] == seq(n - 1, _ => Inc) + seq(rc + 1 + (n - 1), _ => Dec);
    }
  }

  /** From count `rc`, `rc - 1` decrefs leave it at 1 and the next one
    * reclaims it. */
  lemma {:induction false} DecsFrom(rc: nat)
    requires rc > 0
    ensures Run(rc, seq(rc - 1, _ => Dec)) == Alive(1)
    ensures Run(rc, seq(rc, _ => Dec)) == Reclaimed(rc - 1)
  {
    if rc > 1 {
      DecsFrom(rc - 1);
      assert seq(rc - 1, _ => Dec)[1..] == seq(rc - 2, _ => Dec);
      assert seq(rc, _ => Dec)[1..] == seq(rc - 1, _ => Dec);
    }
  }
}
