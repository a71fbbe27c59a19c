/** Loading an ELF image into a new process (elf.c): the conversion of
  * segment permissions to seL4 rights, the page-by-page copy of a segment,
  * and the walk over the program headers. The frames behind the pages and
  * their mappings come from calls the loader does not check; the model
  * records what the loader writes into each page. */
module Elf {
  import opened Common

  /** Segment permission bits and the loadable segment type (System V gABI,
    * chapter 5, "Program Header"). */
  const PF_X: bv64 := 1
  const PF_W: bv64 := 2
  const PF_R: bv64 := 4
  const PT_LOAD: int := 1

  // ---------------------------------------------------------------
  // get_sel4_rights_from_elf
  // ---------------------------------------------------------------

  /** Read is granted for readable or executable segments, write for
    * writable ones, grant never; a segment with none of the three bits
    * gets all rights. */
  function RightsFromElf(permissions: bv64): (r: Rights)
    ensures r.grant <==> permissions & (PF_R | PF_W | PF_X) == 0
    ensures r.read <==> permissions & (PF_R | PF_X) != 0 || permissions & PF_W == 0
    ensures r.write <==> permissions & PF_W != 0 || permissions & (PF_R | PF_W | PF_X) == 0
    ensures r.grant ==> r == ALL_RIGHTS
  {
    var canRead := permissions & PF_R != 0 || permissions & PF_X != 0;
    var canWrite := permissions & PF_W != 0;
    if !canRead && !canWrite then ALL_RIGHTS else Rights(false, canRead, canWrite)
  }

  // ---------------------------------------------------------------
  // load_segment_into_vspace
  // ---------------------------------------------------------------

  /** What one iteration writes: into the page at `page` (the frame mapped
    * there), starting at `offset`, the bytes copied from the file. The rest
    * of the frame keeps the zeros seL4 hands it out with. */
  datatype Chunk = Chunk(page: nat, offset: nat, bytes: seq<bv8>)

  function Min(a: nat, b: nat): nat
  {
    if a <= b then a else b
  }

  /** ROUND_DOWN to a page. */
  function Align(v: nat): nat
  {
    v - v % PAGE_SIZE
  }

  /** The step from `dst` lands on the start of the next page. */
  lemma NextPage(dst: nat)
    ensures Align(dst + ToPageEnd(dst)) == Align(dst) + PAGE_SIZE
  {
  }

  /** Two addresses in the same page range share their page. */
  lemma SamePage(x: nat, dst: nat)
    requires dst <= x < dst + ToPageEnd(dst)
    ensures Align(x) == Align(dst)
  {
    var p := Align(dst);
    assert p <= x < p + PAGE_SIZE;
    assert x == p + (x - p) && 0 <= x - p < PAGE_SIZE;
    assert x % PAGE_SIZE == x - p;
  }

  /** The bytes from `dst` to the end of its page: one iteration's step. */
  function ToPageEnd(dst: nat): (n: nat)
    ensures 1 <= n <= PAGE_SIZE
  {
    PAGE_SIZE - dst % PAGE_SIZE
  }

  /** What the iteration at `pos` writes: the rest of the page under
    * `base + pos`, with file bytes while `pos` is inside the file part. */
  function Step(src: seq<bv8>, fileSize: nat, base: nat, pos: nat): (c: Chunk)
    requires fileSize <= |src|
  {
    var dst := base + pos;
    Chunk(Align(dst), dst % PAGE_SIZE, FileBytes(src, fileSize, pos, ToPageEnd(dst)))
  }

  /** The file bytes an iteration copies: up to `n` from `pos`, none once
    * `pos` is past the file part. */
  function FileBytes(src: seq<bv8>, fileSize: nat, pos: nat, n: nat): seq<bv8>
    requires fileSize <= |src|
  {
    if pos < fileSize then src[pos..pos + Min(n, fileSize - pos)] else []
  }

  /** The iterations of the copy loop from `pos` on, for a segment whose
    * first byte goes to `base`. */
  function Chunks(src: seq<bv8>, fileSize: nat, segmentSize: nat, base: nat, pos: nat): seq<Chunk>
    requires fileSize <= |src|
    decreases segmentSize - pos
  {
    if pos >= segmentSize then []
    else [Step(src, fileSize, base, pos)] + Chunks(src, fileSize, segmentSize, base, pos + ToPageEnd(base + pos))
  }

  /** One more iteration of the loop keeps `done + Chunks(pos)` whole. */
  lemma AppendStep(done: seq<Chunk>, src: seq<bv8>, fileSize: nat, segmentSize: nat, base: nat, pos: nat)
    requires fileSize <= |src| && pos < segmentSize
    ensures done + Chunks(src, fileSize, segmentSize, base, pos)
      == (done + [Step(src, fileSize, base, pos)]) + Chunks(src, fileSize, segmentSize, base, pos + ToPageEnd(base + pos))
  {
    assert Chunks(src, fileSize, segmentSize, base, pos)
      == [Step(src, fileSize, base, pos)] + Chunks(src, fileSize, segmentSize, base, pos + ToPageEnd(base + pos));
  }

  /** The byte a chunk leaves at `k` within its page. */
  function ByteAt(c: Chunk, k: nat): bv8
  {
    if c.offset <= k < c.offset + |c.bytes| then c.bytes[k - c.offset] else 0
  }

  /** What the segment must hold at `k` bytes from its start: file content
    * before `fileSize`, zeros after. */
  function Expected(src: seq<bv8>, fileSize: nat, k: nat): bv8
    requires fileSize <= |src|
  {
    if k < fileSize then src[k] else 0
  }

  /** The loop touches consecutive pages, starting with the page of the
    * first byte; each chunk stays within its page, and only the first can
    * start inside a page: every later destination is page-aligned. */
  lemma {:induction false} ChunksShape(src: seq<bv8>, fileSize: nat, segmentSize: nat, base: nat, pos: nat)
    requires fileSize <= |src|
    ensures forall i :: 0 <= i < |Chunks(src, fileSize, segmentSize, base, pos)| ==>
      var c := Chunks(src, fileSize, segmentSize, base, pos)[i];
      c.page == Align(base + pos) + i * PAGE_SIZE && c.offset + |c.bytes| <= PAGE_SIZE && (i > 0 ==> c.offset == 0)
    decreases segmentSize - pos
  {
    if pos < segmentSize {
      var dst := base + pos;
      var nbytes := ToPageEnd(dst);
      ChunksShape(src, fileSize, segmentSize, base, pos + nbytes);
      var cs := Chunks(src, fileSize, segmentSize, base, pos);
      var rest := Chunks(src, fileSize, segmentSize, base, pos + nbytes);
      assert cs == [cs[0]] + rest;
      assert cs[0].offset + |cs[0].bytes| <= PAGE_SIZE;
      assert rest != [] ==> rest[0].offset == 0;
      forall i | 0 <= i < |cs|
        ensures cs[i].page == Align(base + pos) + i * PAGE_SIZE
        ensures cs[i].offset + |cs[i].bytes| <= PAGE_SIZE
        ensures i > 0 ==> cs[i].offset == 0
      {
        if i > 0 {
          assert cs[i] == rest[i - 1];
          assert rest[i - 1].page == Align(base + (pos + nbytes)) + (i - 1) * PAGE_SIZE;
        }
      }
    }
  }

  /** The last page touched is the page of the segment's last byte, so
    * one frame is taken for each page the segment overlaps. */
  lemma {:induction false} ChunksLastPage(src: seq<bv8>, fileSize: nat, segmentSize: nat, base: nat, pos: nat)
    requires fileSize <= |src| && pos < segmentSize
    ensures |Chunks(src, fileSize, segmentSize, base, pos)| > 0
    ensures Chunks(src, fileSize, segmentSize, base, pos)[|Chunks(src, fileSize, segmentSize, base, pos)| - 1].page
      == Align(base + segmentSize - 1)
    decreases segmentSize - pos
  {
    var dst := base + pos;
    var nbytes := ToPageEnd(dst);
    var cs := Chunks(src, fileSize, segmentSize, base, pos);
    var rest := Chunks(src, fileSize, segmentSize, base, pos + nbytes);
    if pos + nbytes < segmentSize {
      ChunksLastPage(src, fileSize, segmentSize, base, pos + nbytes);
      assert cs[|cs| - 1] == rest[|rest| - 1] by {
        assert cs == [Step(src, fileSize, base, pos)] + rest;
      }
    } else {
      assert cs == [Step(src, fileSize, base, pos)];
      SamePage(base + segmentSize - 1, dst);
    }
  }

  /** The bytes copied in total. */
  function Copied(cs: seq<Chunk>): nat
  {
    if cs == [] then 0 else |cs[0].bytes| + Copied(cs[1..])
  }

  /** The loop copies exactly the file part of the segment. */
  lemma {:induction false} ChunksCopyFile(src: seq<bv8>, fileSize: nat, segmentSize: nat, base: nat, pos: nat)
    requires fileSize <= |src| && fileSize <= segmentSize
    ensures Copied(Chunks(src, fileSize, segmentSize, base, pos)) == if pos < fileSize then fileSize - pos else 0
    decreases segmentSize - pos
  {
    if pos < segmentSize {
      var dst := base + pos;
      var nbytes := ToPageEnd(dst);
      ChunksCopyFile(src, fileSize, segmentSize, base, pos + nbytes);
      var cs := Chunks(src, fileSize, segmentSize, base, pos);
      var rest := Chunks(src, fileSize, segmentSize, base, pos + nbytes);
      assert cs[1..] == rest;
      assert |cs[0].bytes| == if pos < fileSize then Min(nbytes, fileSize - pos) else 0;
    }
  }

  /** The iteration at `pos` leaves every byte of its page range as the
    * segment requires. */
  lemma StepImage(src: seq<bv8>, fileSize: nat, base: nat, pos: nat, a: nat)
    requires fileSize <= |src| && base + pos <= a < base + pos + ToPageEnd(base + pos)
    ensures Step(src, fileSize, base, pos).page == Align(a)
    ensures ByteAt(Step(src, fileSize, base, pos), a % PAGE_SIZE) == Expected(src, fileSize, a - base)
  {
    var c := Step(src, fileSize, base, pos);
    var dst := base + pos;
    assert Align(a) == Align(dst);
    assert a % PAGE_SIZE - c.offset == a - dst;
    if a - base < fileSize {
      assert c.bytes == src[pos..pos + Min(ToPageEnd(dst), fileSize - pos)];
      assert c.bytes[a - dst] == src[a - base];
    }
  }

  /** Every byte of the segment lands where it belongs: the page of its
    * address is touched (by chunk `i`), and after the loop that page holds
    * the file content at that address, or zero past the file part. */
  lemma {:induction false} ChunksImage(src: seq<bv8>, fileSize: nat, segmentSize: nat, base: nat, pos: nat, a: nat)
    returns (i: nat)
    requires fileSize <= |src| && base + pos <= a < base + segmentSize
    ensures i < |Chunks(src, fileSize, segmentSize, base, pos)|
    ensures Chunks(src, fileSize, segmentSize, base, pos)[i].page == Align(a)
    ensures ByteAt(Chunks(src, fileSize, segmentSize, base, pos)[i], a % PAGE_SIZE) == Expected(src, fileSize, a - base)
    decreases segmentSize - pos
  {
    var cs := Chunks(src, fileSize, segmentSize, base, pos);
    var dst := base + pos;
    var nbytes := ToPageEnd(dst);
    if a < dst + nbytes {
      StepImage(src, fileSize, base, pos, a);
      i := 0;
    } else {
      var j := ChunksImage(src, fileSize, segmentSize, base, pos + nbytes, a);
      assert cs[j + 1] == Chunks(src, fileSize, segmentSize, base, pos + nbytes)[j];
      i := j + 1;
    }
  }

  /** load_segment_into_vspace: one iteration per page from `dst` until
    * `segmentSize` bytes are covered, copying from `src` while inside the
    * file part. It always returns 0: the results of frame_alloc and
    * sos_map_frame are not checked. */
  method LoadSegment(src: seq<bv8>, segmentSize: nat, fileSize: nat, dst: nat) returns (chunks: seq<Chunk>)
    requires fileSize <= segmentSize && fileSize <= |src|
    ensures chunks == Chunks(src, fileSize, segmentSize, dst, 0)
  {
    var pos := 0;
    var d := dst;
    chunks := [];
    while pos < segmentSize
      invariant d == dst + pos
      invariant chunks + Chunks(src, fileSize, segmentSize, dst, pos) == Chunks(src, fileSize, segmentSize, dst, 0)
      decreases segmentSize - pos
    {
      var loadee := Align(d);
      var nbytes := ToPageEnd(d);
      var copied: seq<bv8> := [];
      if pos < fileSize {
        copied := src[pos..pos + Min(nbytes, fileSize - pos)];
      }
      var chunk := Chunk(loadee, d % PAGE_SIZE, copied);
      assert chunks + Chunks(src, fileSize, segmentSize, dst, pos)
          == (chunks + [chunk]) + Chunks(src, fileSize, segmentSize, dst, pos + nbytes) by {
        assert chunk == Step(src, fileSize, dst, pos);
        AppendStep(chunks, src, fileSize, segmentSize, dst, pos);
      }
      chunks := chunks + [chunk];
      pos := pos + nbytes;
      d := d + nbytes;
    }
  }

  // ---------------------------------------------------------------
  // elf_load
  // ---------------------------------------------------------------

  /** The fields of a program header the loader reads. */
  datatype ProgramHeader = ProgramHeader(kind: int, offset: nat, fileSize: nat, memSize: nat, vaddr: nat, flags: bv64)

  /** An ELF file as the loader sees it: whether elf_checkFile accepts it,
    * its bytes and its program headers. */
  datatype ElfFile = ElfFile(valid: bool, bytes: seq<bv8>, headers: seq<ProgramHeader>)

  /** What loading one segment does: asks for a region (vaddr, size and
    * the flags truncated to the unsigned char as_define_region takes) and
    * fills the segment's pages with the given rights. */
  datatype SegmentLoad = SegmentLoad(vaddr: nat, size: nat, regionFlags: bv8, rights: Rights, chunks: seq<Chunk>)

  /** A loadable header whose sizes pass the loader's assertion and whose
    * file part lies inside the file. */
  predicate Loadable(h: ProgramHeader, bytes: seq<bv8>)
  {
    h.fileSize <= h.memSize && h.offset + h.fileSize <= |bytes|
  }

  predicate AllLoadable(hs: seq<ProgramHeader>, bytes: seq<bv8>)
  {
    forall i :: 0 <= i < |hs| && hs[i].kind == PT_LOAD ==> Loadable(hs[i], bytes)
  }

  function Segment(h: ProgramHeader, bytes: seq<bv8>): SegmentLoad
    requires Loadable(h, bytes)
  {
    SegmentLoad(h.vaddr, h.memSize, (h.flags & 0xFF) as bv8, RightsFromElf(h.flags),
                Chunks(bytes[h.offset..], h.fileSize, h.memSize, h.vaddr, 0))
  }

  /** The segments loaded for the headers `hs`, in order, skipping those
    * that are not PT_LOAD. */
  function Segments(hs: seq<ProgramHeader>, bytes: seq<bv8>): seq<SegmentLoad>
    requires AllLoadable(hs, bytes)
    decreases |hs|
  {
    if hs == [] then []
    else
      var last := hs[|hs| - 1];
      Segments(hs[..|hs| - 1], bytes) + (if last.kind == PT_LOAD then [Segment(last, bytes)] else [])
  }

  /** Each loaded segment comes from a PT_LOAD header: the `j`-th is
    * that of header `i`. */
  lemma {:induction false} SegmentFrom(hs: seq<ProgramHeader>, bytes: seq<bv8>, j: nat) returns (i: nat)
    requires AllLoadable(hs, bytes) && j < |Segments(hs, bytes)|
    ensures i < |hs| && hs[i].kind == PT_LOAD && Segments(hs, bytes)[j] == Segment(hs[i], bytes)
    decreases |hs|
  {
    var init := hs[..|hs| - 1];
    var s0 := Segments(init, bytes);
    assert AllLoadable(init, bytes) by {
      forall k | 0 <= k < |init| ensures init[k] == hs[k] { }
    }
    if j < |s0| {
      i := SegmentFrom(init, bytes, j);
      assert hs[i] == init[i];
    } else {
      i := |hs| - 1;
    }
  }

  /** Each PT_LOAD header is loaded. */
  lemma {:induction false} SegmentLoaded(hs: seq<ProgramHeader>, bytes: seq<bv8>, i: nat)
    requires AllLoadable(hs, bytes) && i < |hs| && hs[i].kind == PT_LOAD
    ensures Segment(hs[i], bytes) in Segments(hs, bytes)
    decreases |hs|
  {
    var init := hs[..|hs| - 1];
    assert AllLoadable(init, bytes) by {
      forall k | 0 <= k < |init| ensures init[k] == hs[k] { }
    }
    if i < |hs| - 1 {
      SegmentLoaded(init, bytes, i);
      assert hs[i] == init[i];
    }
  }

  /** elf_load: -1 for a missing or invalid file; otherwise each PT_LOAD
    * segment, in header order, has its region defined and its pages
    * loaded, and the result is 0 (neither a failed region definition nor
    * a segment load ever makes it fail). */
  method ElfLoad(file: Option<ElfFile>) returns (r: int, loads: seq<SegmentLoad>)
    requires file.Some? && file.value.valid ==> AllLoadable(file.value.headers, file.value.bytes)
    ensures r == -1 <==> file.None? || !file.value.valid
    ensures r == -1 ==> loads == []
    ensures r == -1 || r == 0
    ensures r == 0 ==> loads == Segments(file.value.headers, file.value.bytes)
  {
    if file.None? || !file.value.valid {
      return -1, [];
    }
    var bytes, headers := file.value.bytes, file.value.headers;
    loads := [];
    var i := 0;
    while i < |headers|
      invariant 0 <= i <= |headers|
      invariant AllLoadable(headers[..i], bytes)
      invariant loads == Segments(headers[..i], bytes)
    {
      assert headers[..i + 1][..i] == headers[..i];
      var h := headers[i];
      if h.kind != PT_LOAD {
        i := i + 1;
        continue;
      }
      var chunks := LoadSegment(bytes[h.offset..], h.memSize, h.fileSize, h.vaddr);
      loads := loads + [SegmentLoad(h.vaddr, h.memSize, (h.flags & 0xFF) as bv8, RightsFromElf(h.flags), chunks)];
      i := i + 1;
    }
    assert headers[..i] == headers;
    return 0, loads;
  }
}
