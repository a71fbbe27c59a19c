/** The process table of proc.c: a fixed array of SIZE process records
  * looked up by pid, and the current process. A record is named by its
  * index in the array. */
module Proc {
  import opened Common

  const SIZE: nat := 32

  /** get_process as written: NULL (None) above 32, otherwise the record at
    * index `pid - 1`, computed in unsigned int arithmetic. */
  function GetProcessAsWritten(pid: nat): (r: Option<int>)
    requires pid < U32_MOD
    ensures r.None? <==> pid > SIZE
  {
    if pid > 32 then None else Some((pid - 1) % U32_MOD)
  }

  /** pid 0 passes the guard (`pid < 0` never holds for an unsigned pid)
    * and `pid - 1` wraps to 0xFFFF_FFFF, far outside the 32 records. */
  lemma GetProcessZeroOutOfRange()
    ensures GetProcessAsWritten(0) == Some(U32_MOD - 1) && U32_MOD - 1 >= SIZE
  {
  }

  /** get_process as intended: the record of pid 1 to 32, None for any
    * other pid, 0 included. */
  function GetProcess(pid: nat): (r: Option<nat>)
    ensures r.Some? <==> 1 <= pid <= SIZE
    ensures r.Some? ==> r.value < SIZE && r.value + 1 == pid
  {
    if pid == 0 || pid > SIZE then None else Some(pid - 1)
  }

  /** The intended lookup agrees with the code on every pid but 0, and
    * every record of the table is found by exactly one pid. */
  lemma GetProcessAgrees(pid: nat, i: nat)
    requires pid < U32_MOD
    ensures pid != 0 ==> (GetProcessAsWritten(pid).Some? <==> GetProcess(pid).Some?)
    ensures pid != 0 && GetProcess(pid).Some? ==> GetProcessAsWritten(pid) == Some(GetProcess(pid).value)
    ensures i < SIZE ==> GetProcess(i + 1) == Some(i)
    ensures GetProcess(pid) == Some(i) ==> pid == i + 1
  {
  }

  /** The current-process pointer (`cur_proc`), None for NULL. */
  class Processes {
    var cur: Option<nat>

    constructor ()
      ensures cur.None?
    {
      cur := None;
    }

    /** set_cur_proc. */
    method SetCurProc(p: Option<nat>)
      modifies this
      ensures cur == p
    {
      cur := p;
    }

    /** get_cur_proc: the process last set. */
    method GetCurProc() returns (p: Option<nat>)
      ensures p == cur
    {
      p := cur;
    }
  }
}
