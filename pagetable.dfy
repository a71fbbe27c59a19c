/** The SOS shadow page table (pagetable.c, pagetable.h): a four-level
  * radix tree that mirrors the hardware paging structures. Every node is
  * a run of three frames linked through the frame table's `next` fields:
  * the table of 512 words, then the array of untyped objects, then the
  * array of capabilities of the hardware tables below it. The shadow
  * memory is a map from a frame's address in the server to its 512 words. */
module PageTable {
  import opened Common
  import FT = FrameTable
  import AS = AddrSpace

  const PAGE_TABLE_SIZE: nat := 512
  const PAGE_TABLE_FRAME_SIZE: nat := 3

  /** The mask get_offset starts from: bits 30..38 (the level-2 index). */
  const LEVEL2_MASK: bv64 := 0x7f_c000_0000

  /** A frame seen as 512 machine words. */
  type Table = s: seq<Word> | |s| == 512 witness ZeroTable()

  function ZeroTable(): (t: seq<Word>)
    ensures |t| == 512 && forall j :: 0 <= j < |t| ==> t[j] == 0
  {
    seq(512, _ => 0)
  }

  /** The shadow tables, keyed by the server address of their frame. */
  type Memory = map<Word, Table>

  /** page_table_entry: the hardware table's capability slot, the address
    * of its shadow table, its untyped object and, for a leaf, the frame
    * index that backs the page. */
  datatype Entry = Entry(slot: Word, tableAddr: Word, ut: Word, frame: Word)

  // ---------------------------------------------------------------
  // get_offset
  // ---------------------------------------------------------------

  /** `x >> (48 - 9 * n)` for the four levels. */
  function LevelShift(x: bv64, n: int): bv64
    requires 1 <= n <= 4
  {
    if n == 1 then x >> 39 else if n == 2 then x >> 30 else if n == 3 then x >> 21 else x >> 12
  }

  /** get_offset as written: the level-2 mask is applied at every level,
    * so only bits 30..38 of vaddr survive, shifted by the level's amount. */
  function OffsetAsWritten(vaddr: Word, n: int): int
    requires 1 <= n <= 4
  {
    LevelShift((vaddr as bv64) & LEVEL2_MASK, n) as int
  }

  /** The level-n index: bits 48 - 9n .. 56 - 9n of vaddr. */
  function Offset(vaddr: Word, n: int): (r: nat)
    requires 1 <= n <= 4
    ensures r < PAGE_TABLE_SIZE
  {
    (LevelShift(vaddr as bv64, n) & 0x1ff) as int
  }

  /** For level 2, the only level the mask was written for, the two agree. */
  lemma OffsetAsWrittenAtLevel2(vaddr: Word)
    ensures OffsetAsWritten(vaddr, 2) == Offset(vaddr, 2)
  {
  }

  /** At level 1 get_offset as written always yields 0: every process
    * shares the first top-level slot. */
  lemma OffsetAsWrittenAtLevel1(vaddr: Word)
    ensures OffsetAsWritten(vaddr, 1) == 0
  {
  }

  /** At level 3 get_offset as written leaves the table: 1 GiB gives
    * index 512 of a 512-entry table. */
  lemma OffsetAsWrittenOutOfBounds()
    ensures OffsetAsWritten(0x4000_0000, 3) == 512 >= PAGE_TABLE_SIZE
  {
    var x: bv64 := 0x4000_0000;
    assert (0x4000_0000 as Word) as bv64 == x;
    assert LevelShift(x & LEVEL2_MASK, 3) == 0x200;
  }

  // ---------------------------------------------------------------
  // get_page_table_ut, get_page_table_cap
  // ---------------------------------------------------------------

  /** The frame index of a server address in the frame window, if any. */
  function FrameOf(fs: seq<FT.Frame>, pt: Word): (r: Option<nat>)
    ensures r.Some? ==> r.value < |fs| && FT.FRAME_BASE + r.value * PAGE_SIZE <= pt
  {
    if pt < FT.FRAME_BASE || (pt - FT.FRAME_BASE) / PAGE_SIZE >= |fs| then None
    else Some((pt - FT.FRAME_BASE) / PAGE_SIZE)
  }

  /** The frame linked after frame f, as a server address. */
  function NextVaddr(fs: seq<FT.Frame>, f: nat): Option<Word>
    requires f < |fs|
  {
    if 0 <= fs[f].next < 0x8000_0000 then Some(FT.FrameVaddr(fs[f].next)) else None
  }

  /** get_page_table_ut: the frame after the node's table frame. None
    * stands for an address outside the frame table. */
  function UtArray(fs: seq<FT.Frame>, pt: Word): Option<Word>
  {
    match FrameOf(fs, pt)
    case None => None
    case Some(f) => NextVaddr(fs, f)
  }

  /** get_page_table_cap: the frame after the ut array. */
  function CapArray(fs: seq<FT.Frame>, pt: Word): Option<Word>
  {
    match UtArray(fs, pt)
    case None => None
    case Some(u) => match FrameOf(fs, u)
      case None => None
      case Some(f) => NextVaddr(fs, f)
  }

  lemma FrameOfVaddr(fs: seq<FT.Frame>, f: int)
    requires 0 <= f < |fs| && f < 0x8000_0000
    ensures FrameOf(fs, FT.FrameVaddr(f)) == Some(f)
  {
  }

  /** For a node allocated as a run of three frames, the ut array is the
    * second frame and the cap array the third; all three are distinct. */
  lemma NodeArrays(fs: seq<FT.Frame>, c: seq<int>)
    requires FT.Run(fs, c) && |c| == PAGE_TABLE_FRAME_SIZE && |fs| < 0x8000_0000
    ensures forall k :: 0 <= k < |c| ==> 0 <= c[k] < |fs|
    ensures UtArray(fs, FT.FrameVaddr(c[0])) == Some(FT.FrameVaddr(c[1]))
    ensures CapArray(fs, FT.FrameVaddr(c[0])) == Some(FT.FrameVaddr(c[2]))
    ensures FT.FrameVaddr(c[0]) != FT.FrameVaddr(c[1]) && FT.FrameVaddr(c[1]) != FT.FrameVaddr(c[2]) &&
            FT.FrameVaddr(c[2]) != FT.FrameVaddr(c[0])
  {
    assert FT.Run(fs, c[1..]) && FT.Run(fs, c[1..][1..]);
    FrameOfVaddr(fs, c[0]);
    FrameOfVaddr(fs, c[1]);
    assert c[1] in c[1..] && c[2] in c[1..] && c[2] in c[1..][1..];
  }

  // ---------------------------------------------------------------
  // get_n_level_table
  // ---------------------------------------------------------------

  /** The walk from the node `pt` at level i down to level n, indexing
    * level j with the level-j index. None stands for a pointer that leads
    * outside the shadow memory. Walk(mem, root, v, 1, 5) is the leaf
    * entry of v. */
  function Walk(mem: Memory, pt: Word, vaddr: Word, i: nat, n: int): Option<Word>
    requires 1 <= i && n <= 5
    decreases n - i
  {
    if i >= n then Some(pt)
    else if pt !in mem then None
    else Walk(mem, mem[pt][Offset(vaddr, i)], vaddr, i + 1, n)
  }

  /** get_n_level_table as written: every step indexes with the target
    * level n and get_offset as written; an index past the table is a read
    * outside it, None here. */
  function WalkAsWritten(mem: Memory, pt: Word, vaddr: Word, i: nat, n: int): Option<Word>
    requires 1 <= i && n <= 4
    decreases n - i
  {
    if i >= n then Some(pt)
    else if pt !in mem || OffsetAsWritten(vaddr, n) >= PAGE_TABLE_SIZE then None
    else WalkAsWritten(mem, mem[pt][OffsetAsWritten(vaddr, n)], vaddr, i + 1, n)
  }

  /** The nodes a walk reads, in order. */
  function Path(mem: Memory, pt: Word, vaddr: Word, i: nat, n: int): seq<Word>
    requires 1 <= i && n <= 5
    decreases n - i
  {
    if i >= n || pt !in mem then [] else [pt] + Path(mem, mem[pt][Offset(vaddr, i)], vaddr, i + 1, n)
  }

  /** A walk depends only on the nodes on its path. */
  lemma {:induction false} WalkFrame(mem: Memory, mem': Memory, pt: Word, vaddr: Word, i: nat, n: int)
    requires 1 <= i && n <= 5
    requires mem'.Keys == mem.Keys
    requires forall a :: a in Path(mem, pt, vaddr, i, n) && a in mem' ==> mem'[a] == mem[a]
    ensures Walk(mem', pt, vaddr, i, n) == Walk(mem, pt, vaddr, i, n)
    ensures Path(mem', pt, vaddr, i, n) == Path(mem, pt, vaddr, i, n)
    decreases n - i
  {
    if i < n && pt in mem {
      assert pt in Path(mem, pt, vaddr, i, n);
      WalkFrame(mem, mem', mem[pt][Offset(vaddr, i)], vaddr, i + 1, n);
    }
  }

  /** One more level: the walk to level n + 1 reads the level-n index of
    * the node the walk to level n reaches. */
  lemma {:induction false} WalkStep(mem: Memory, pt: Word, vaddr: Word, i: nat, n: int)
    requires 1 <= i <= n <= 4
    ensures Walk(mem, pt, vaddr, i, n + 1) ==
      (match Walk(mem, pt, vaddr, i, n)
       case None => None
       case Some(q) => if q in mem then Some(mem[q][Offset(vaddr, n)]) else None)
    decreases n - i
  {
    if i < n && pt in mem {
      WalkStep(mem, mem[pt][Offset(vaddr, i)], vaddr, i + 1, n);
    }
  }

  /** The as-written walk goes astray even where get_offset is right: on
    * a two-level walk to level 2 it indexes the top table with the level-2
    * index. With root slot 0 leading to A and slot 1 to C, address 1 GiB
    * belongs under A, but the walk as written reaches C. */
  lemma WalkAsWrittenUsesWrongLevel(root: Word, a: Word, c: Word)
    requires a != c
    ensures var mem: Memory := map[root := ZeroTable()[0 := a][1 := c]];
      Walk(mem, root, 0x4000_0000, 1, 2) == Some(a) &&
      WalkAsWritten(mem, root, 0x4000_0000, 1, 2) == Some(c)
  {
    var x: bv64 := 0x4000_0000;
    assert (0x4000_0000 as Word) as bv64 == x;
    assert LevelShift(x, 1) & 0x1ff == 0;
    assert LevelShift(x & LEVEL2_MASK, 2) == 1;
  }

  // ---------------------------------------------------------------
  // insert_page_table_entry
  // ---------------------------------------------------------------

  /** One word of one shadow table overwritten. */
  function Store(mem: Memory, a: Word, off: nat, x: Word): (m: Memory)
    requires a in mem && off < PAGE_TABLE_SIZE
    ensures m.Keys == mem.Keys && m[a][off] == x
    ensures forall b, j :: b in mem && 0 <= j < PAGE_TABLE_SIZE && (b != a || j != off) ==> m[b][j] == mem[b][j]
  {
    mem[a := mem[a][off := x]]
  }

  predicate ValidLevel(level: int) { level == 2 || level == 3 || level == 4 }

  /** The leaf write of level 4: the frame into the new leaf table. */
  function Leaf(mem: Memory, e: Entry, level: int, vaddr: Word): (m: Memory)
    requires level == 4 ==> e.tableAddr in mem
    ensures m.Keys == mem.Keys
  {
    if level == 4 then Store(mem, e.tableAddr, Offset(vaddr, 4), e.frame) else mem
  }

  /** What insert_page_table_entry needs to find for a level 2-4 entry:
    * the new leaf table, the parent node at level - 1 and the parent's ut
    * and cap arrays, all inside the shadow memory. */
  predicate InsertDefined(mem: Memory, fs: seq<FT.Frame>, root: Word, e: Entry, level: int, vaddr: Word)
  {
    ValidLevel(level) ==>
      (level == 4 ==> e.tableAddr in mem) &&
      var m1 := Leaf(mem, e, level, vaddr);
      var p := Walk(m1, root, vaddr, 1, level - 1);
      p.Some? && p.value in mem &&
      UtArray(fs, p.value).Some? && UtArray(fs, p.value).value in mem &&
      CapArray(fs, p.value).Some? && CapArray(fs, p.value).value in mem
  }

  /** The parent node a level-2..4 insertion writes into. */
  function Parent(mem: Memory, fs: seq<FT.Frame>, root: Word, e: Entry, level: int, vaddr: Word): Word
    requires ValidLevel(level) && InsertDefined(mem, fs, root, e, level, vaddr)
  {
    Walk(Leaf(mem, e, level, vaddr), root, vaddr, 1, level - 1).value
  }

  /** The shadow memory after inserting e at a level 2-4 position: the
    * leaf write (level 4 only), then the parent's slot at the level-1
    * index gets the table address, its cap array the slot, its ut array
    * the untyped object. */
  function Inserted(mem: Memory, fs: seq<FT.Frame>, root: Word, e: Entry, level: int, vaddr: Word): Memory
    requires ValidLevel(level) && InsertDefined(mem, fs, root, e, level, vaddr)
  {
    ParentWrites(Leaf(mem, e, level, vaddr), fs, Parent(mem, fs, root, e, level, vaddr), e, Offset(vaddr, level - 1))
  }

  /** The three writes into a node: its table, cap array and ut array at
    * the same index. */
  function ParentWrites(mem: Memory, fs: seq<FT.Frame>, p: Word, e: Entry, off: nat): Memory
    requires off < PAGE_TABLE_SIZE && p in mem
    requires UtArray(fs, p).Some? && UtArray(fs, p).value in mem
    requires CapArray(fs, p).Some? && CapArray(fs, p).value in mem
  {
    var m2 := Store(mem, p, off, e.tableAddr);
    var m3 := Store(m2, CapArray(fs, p).value, off, e.slot);
    Store(m3, UtArray(fs, p).value, off, e.ut)
  }

  /** Only the written words change: the parent's, cap array's and ut
    * array's slot at the level - 1 index and, at level 4, the leaf
    * table's slot at the level-4 index. No table appears or disappears. */
  lemma InsertTouchesOnly(mem: Memory, fs: seq<FT.Frame>, root: Word, e: Entry, level: int, vaddr: Word)
    requires ValidLevel(level) && InsertDefined(mem, fs, root, e, level, vaddr)
    ensures var m := Inserted(mem, fs, root, e, level, vaddr);
      var p := Parent(mem, fs, root, e, level, vaddr);
      var off := Offset(vaddr, level - 1);
      m.Keys == mem.Keys &&
      forall b, j :: b in mem && 0 <= j < PAGE_TABLE_SIZE &&
        !(j == off && (b == p || b == CapArray(fs, p).value || b == UtArray(fs, p).value)) &&
        !(level == 4 && b == e.tableAddr && j == Offset(vaddr, 4))
        ==> m[b][j] == mem[b][j]
  {
  }

  /** When the parent, cap array and ut array are three different frames
    * (as they are for a node allocated as a run), each holds the value
    * written to it; at level 4 the leaf table, if it is none of them,
    * holds the frame. */
  lemma InsertRecords(mem: Memory, fs: seq<FT.Frame>, root: Word, e: Entry, level: int, vaddr: Word)
    requires ValidLevel(level) && InsertDefined(mem, fs, root, e, level, vaddr)
    requires var p := Parent(mem, fs, root, e, level, vaddr);
      p != CapArray(fs, p).value && CapArray(fs, p).value != UtArray(fs, p).value && UtArray(fs, p).value != p
    ensures var m := Inserted(mem, fs, root, e, level, vaddr);
      var p := Parent(mem, fs, root, e, level, vaddr);
      var off := Offset(vaddr, level - 1);
      m[p][off] == e.tableAddr && m[CapArray(fs, p).value][off] == e.slot &&
      m[UtArray(fs, p).value][off] == e.ut &&
      (level == 4 && e.tableAddr !in {p, CapArray(fs, p).value, UtArray(fs, p).value} ==>
         m[e.tableAddr][Offset(vaddr, 4)] == e.frame)
  {
  }

  /** After the insertion the walk to `level` reaches the new table, as
    * long as none of the written frames is a node on the way to the
    * parent. At level 4 the whole translation of vaddr then yields the
    * frame. */
  lemma InsertThenWalk(mem: Memory, fs: seq<FT.Frame>, root: Word, e: Entry, level: int, vaddr: Word)
    requires ValidLevel(level) && InsertDefined(mem, fs, root, e, level, vaddr)
    requires var p := Parent(mem, fs, root, e, level, vaddr);
      p != CapArray(fs, p).value && CapArray(fs, p).value != UtArray(fs, p).value && UtArray(fs, p).value != p
    requires var p := Parent(mem, fs, root, e, level, vaddr);
      var path := Path(Leaf(mem, e, level, vaddr), root, vaddr, 1, level - 1);
      p !in path && CapArray(fs, p).value !in path && UtArray(fs, p).value !in path
    requires level == 4 ==> e.tableAddr !in Path(mem, root, vaddr, 1, 3)
    ensures var m := Inserted(mem, fs, root, e, level, vaddr);
      Walk(m, root, vaddr, 1, level) == Some(e.tableAddr)
    ensures var p := Parent(mem, fs, root, e, level, vaddr);
      var m := Inserted(mem, fs, root, e, level, vaddr);
      level == 4 && e.tableAddr !in {p, CapArray(fs, p).value, UtArray(fs, p).value} ==>
        Walk(m, root, vaddr, 1, 5) == Some(e.frame)
  {
    var m1 := Leaf(mem, e, level, vaddr);
    var m := Inserted(mem, fs, root, e, level, vaddr);
    var p := Parent(mem, fs, root, e, level, vaddr);
    if level == 4 {
      assert e.tableAddr in mem;
      WalkFrame(mem, m1, root, vaddr, 1, 3);
    }
    WalkFrame(m1, m, root, vaddr, 1, level - 1);
    WalkStep(m, root, vaddr, 1, level - 1);
    InsertRecords(mem, fs, root, e, level, vaddr);
    if level == 4 && e.tableAddr !in {p, CapArray(fs, p).value, UtArray(fs, p).value} {
      WalkStep(m, root, vaddr, 1, 4);
    }
  }

  /** The page-table entry point of a process: its shadow tables. */
  class ShadowTables {
    var mem: Memory

    constructor ()
      ensures mem == map[]
    {
      mem := map[];
    }

    /** get_n_level_table with every level indexed by its own index: the
      * node at level n on the way to vaddr. */
    method NLevelTable(table: Word, vaddr: Word, n: int) returns (r: Option<Word>)
      requires n <= 5
      ensures r == Walk(mem, table, vaddr, 1, n)
    {
      var pt := table;
      var i := 1;
      while i < n
        invariant 1 <= i && (i <= n || n < 1)
        invariant Walk(mem, pt, vaddr, i, n) == Walk(mem, table, vaddr, 1, n)
        decreases n - i
      {
        if pt !in mem {
          return None;
        }
        pt := mem[pt][Offset(vaddr, i)];
        i := i + 1;
      }
      return Some(pt);
    }

    /** insert_page_table_entry: levels other than 2, 3 and 4 are refused
      * with seL4_InvalidArgument and nothing is written; level 4 writes
      * the leaf and falls through to the level 2-3 case. The frame table
      * `fs` locates the parent's ut and cap arrays. */
    method Insert(fs: seq<FT.Frame>, root: Word, e: Entry, level: int, vaddr: Word) returns (err: int)
      requires InsertDefined(mem, fs, root, e, level, vaddr)
      modifies this
      ensures err == (if ValidLevel(level) then SEL4_NO_ERROR else SEL4_INVALID_ARGUMENT)
      ensures !ValidLevel(level) ==> mem == old(mem)
      ensures ValidLevel(level) ==> mem == Inserted(old(mem), fs, root, e, level, vaddr)
    {
      if !ValidLevel(level) {
        return SEL4_INVALID_ARGUMENT;
      }
      if level == 4 {
        mem := Store(mem, e.tableAddr, Offset(vaddr, 4), e.frame);
      }
      ghost var m1 := mem;
      assert m1 == Leaf(old(mem), e, level, vaddr);
      var pt := NLevelTable(root, vaddr, level - 1);
      assert pt.value == Parent(old(mem), fs, root, e, level, vaddr);
      var cap := CapArray(fs, pt.value).value;
      var ut := UtArray(fs, pt.value).value;
      var off := Offset(vaddr, level - 1);
      WriteParent(fs, pt.value, cap, ut, e, off);
      return SEL4_NO_ERROR;
    }

    /** The three stores into the parent node of an insertion, its cap
      * array `cap` and its ut array `ut`. */
    method WriteParent(fs: seq<FT.Frame>, p: Word, cap: Word, ut: Word, e: Entry, off: nat)
      requires off < PAGE_TABLE_SIZE && p in mem
      requires UtArray(fs, p) == Some(ut) && ut in mem
      requires CapArray(fs, p) == Some(cap) && cap in mem
      modifies this
      ensures mem == ParentWrites(old(mem), fs, p, e, off)
    {
      mem := Store(mem, p, off, e.tableAddr);
      mem := Store(mem, cap, off, e.slot);
      mem := Store(mem, ut, off, e.ut);
    }

    /** update_level_4_page_table_entry, with the offset it uses declared:
      * the frame goes into the level-4 index of the leaf table of vaddr. */
    method UpdateLevel4(root: Word, e: Entry, vaddr: Word)
      requires Walk(mem, root, vaddr, 1, 4).Some? && Walk(mem, root, vaddr, 1, 4).value in mem
      modifies this
      ensures mem == Store(old(mem), Walk(old(mem), root, vaddr, 1, 4).value, Offset(vaddr, 4), e.frame)
    {
      var pt := NLevelTable(root, vaddr, 4);
      var offset := Offset(vaddr, 4);
      mem := mem[pt.value := mem[pt.value][offset := e.frame]];
    }

    /** initialize_page_table: a run of three frames becomes a top-level
      * node whose three tables read as zero; NULL (None) exactly when the
      * run cannot be allocated. */
    method InitializePageTable(ft: FT.FrameTable, retypes: seq<Option<FT.Retyped>>)
      returns (table: Option<Word>)
      requires ft.Valid()
      requires |retypes| >= PAGE_TABLE_FRAME_SIZE
      requires forall i :: 0 <= i < |retypes| && retypes[i].Some? ==> i + 2 <= |ft.untypedList|
      modifies this, ft, ft.frames, ft.data
      ensures ft.Valid()
      ensures table.None? <==> exists i :: 0 <= i < PAGE_TABLE_FRAME_SIZE && retypes[i].None?
      ensures table.None? ==> mem == old(mem)
      ensures table.Some? ==>
        (var ut := UtArray(ft.frames[..], table.value);
         var cap := CapArray(ft.frames[..], table.value);
         ut.Some? && cap.Some? && table.value != ut.value && ut.value != cap.value && cap.value != table.value &&
         mem == old(mem)[table.value := ZeroTable()][ut.value := ZeroTable()][cap.value := ZeroTable()])
    {
      var base, vaddr, chain := ft.FrameNAlloc(3, retypes);
      if base == -1 {
        return None;
      }
      NodeArrays(ft.frames[..], chain);
      var ut := UtArray(ft.frames[..], vaddr).value;
      var cap := CapArray(ft.frames[..], vaddr).value;
      mem := mem[vaddr := ZeroTable()][ut := ZeroTable()][cap := ZeroTable()];
      return Some(vaddr);
    }
  }

  /** After update_level_4_page_table_entry the translation of vaddr is
    * the frame, provided the leaf table is not itself a node on the way. */
  lemma UpdateLevel4Translates(mem: Memory, root: Word, vaddr: Word, frame: Word)
    requires Walk(mem, root, vaddr, 1, 4).Some? && Walk(mem, root, vaddr, 1, 4).value in mem
    requires Walk(mem, root, vaddr, 1, 4).value !in Path(mem, root, vaddr, 1, 4)
    ensures var m := Store(mem, Walk(mem, root, vaddr, 1, 4).value, Offset(vaddr, 4), frame);
      Walk(m, root, vaddr, 1, 5) == Some(frame)
  {
    var pt := Walk(mem, root, vaddr, 1, 4).value;
    var m := Store(mem, pt, Offset(vaddr, 4), frame);
    WalkFrame(mem, m, root, vaddr, 1, 4);
    WalkStep(m, root, vaddr, 1, 4);
  }

  // ---------------------------------------------------------------
  // handle_page_fault
  // ---------------------------------------------------------------

  /** What handle_page_fault does: nothing, or allocate one frame and map
    * it at vaddr with the given rights. */
  datatype FaultAction = NoAction | MapFrame(region: nat, rights: Rights)

  /** The region test of handle_page_fault, with the size_t sum wrapping. */
  predicate Covers(r: AS.Region, vaddr: Word)
  {
    r.vaddr <= vaddr < (r.vaddr + r.size) % WORD_MOD
  }

  /** The index of the first region that covers vaddr. */
  function FirstCovering(l: seq<AS.Region>, vaddr: Word): (k: Option<nat>)
    ensures k.None? <==> forall j :: 0 <= j < |l| ==> !Covers(l[j], vaddr)
    ensures k.Some? ==> (k.value < |l| && Covers(l[k.value], vaddr) &&
                         forall j :: 0 <= j < k.value ==> !Covers(l[j], vaddr))
  {
    if |l| == 0 then None
    else if Covers(l[0], vaddr) then Some(0)
    else match FirstCovering(l[1..], vaddr)
      case None => None
      case Some(k) => Some(k + 1)
  }

  /** The rights derived from a region's flags: the execute bit lands in
    * the first (grant) argument, then read and write. */
  function RegionRights(flags: bv32, layout: Layout): Rights
  {
    Rights(flags & layout.rgX != 0, flags & layout.rgR != 0, flags & layout.rgW != 0)
  }

  /** handle_page_fault: scans the region list in order and acts on the
    * first region that covers vaddr only; the fault information is unused. */
  method HandlePageFault(regions: seq<AS.Region>, vaddr: Word, layout: Layout) returns (a: FaultAction)
    ensures a.NoAction? <==> forall j :: 0 <= j < |regions| ==> !Covers(regions[j], vaddr)
    ensures a.MapFrame? ==>
      a.region < |regions| && Covers(regions[a.region], vaddr) &&
      (forall j :: 0 <= j < a.region ==> !Covers(regions[j], vaddr)) &&
      a.rights == RegionRights(regions[a.region].flags, layout)
    ensures a.MapFrame? ==> FirstCovering(regions, vaddr) == Some(a.region)
  {
    var i := 0;
    while i < |regions|
      invariant 0 <= i <= |regions|
      invariant forall j :: 0 <= j < i ==> !Covers(regions[j], vaddr)
    {
      var region := regions[i];
      if Covers(region, vaddr) {
        return MapFrame(i, RegionRights(region.flags, layout));
      }
      i := i + 1;
    }
    return NoAction;
  }
}
