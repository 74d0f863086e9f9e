/**
 The ELF-64 loader of kernel/src/elf_loader.rs, over the frames of module Frames.

 Loading is total here: whatever the bytes, the outcome is an entry point, one of the loader's
 errors, or a panic (an arithmetic overflow, a slice out of range or a non-canonical address,
 any of which stops the kernel). The page-table mapper is code this project does not have; how
 many table frames it takes for a page, and whether it refuses the page for reasons of its own,
 are parameters.
 */
module Elf {
  import opened Bytes
  import opened Frames

  datatype ElfError =
    | TooShort | BadMagic | NotElf64 | NotLittleEndian | NotX86_64 | NotExecutable
    | BadPhOffset | SegmentOutOfBounds | PageMapFailed | FrameAllocFailed

  datatype Outcome = Loaded(entry: nat) | Error(error: ElfError) | Panicked

  const ELFMAG: seq<byte> := [0x7f, 0x45, 0x4c, 0x46]
  const ELFCLASS64: byte := 2
  const ELFDATA2LSB: byte := 1
  const EM_X86_64: nat := 62
  const ET_EXEC: nat := 2
  const PT_LOAD: nat := 1

  /** A little-endian field. */
  function Field(b: seq<byte>, off: nat, len: nat): nat
    requires off + len <= |b|
  {
    FromLittleEndian(b[off..off + len])
  }

  // ---------------------------------------------------------------------------------------
  // Headers
  // ---------------------------------------------------------------------------------------

  /** The file header checks, in order. */
  function CheckHeader(b: seq<byte>): Option<ElfError>
  {
    if |b| < 64 then Some(TooShort)
    else if b[0..4] != ELFMAG then Some(BadMagic)
    else if b[4] != ELFCLASS64 then Some(NotElf64)
    else if b[5] != ELFDATA2LSB then Some(NotLittleEndian)
    else if Field(b, 18, 2) != EM_X86_64 then Some(NotX86_64)
    else if Field(b, 16, 2) != ET_EXEC then Some(NotExecutable)
    else None
  }

  /** A loadable segment: permission bits, where it is in the file, where it goes. */
  datatype Segment = Segment(writable: bool, executable: bool, offset: nat, vaddr: nat, filesz: nat, memsz: nat)

  datatype Parsed = Bad(error: ElfError) | Crash | Skip | Load(seg: Segment)

  /** Program header `i` of the table. */
  function Parse(b: seq<byte>, i: nat): (p: Parsed)
    requires |b| >= 64
    ensures p.Load? ==> p.seg.offset + p.seg.filesz <= |b|
  {
    var size := Field(b, 54, 2);
    ParseAt(b, Field(b, 32, 8) + i * size, size)
  }

  /** What the table entry of `size` bytes at `off` says. */
  function ParseAt(b: seq<byte>, off: nat, size: nat): (p: Parsed)
    ensures p.Load? ==> p.seg.offset + p.seg.filesz <= |b|
  {
    if off + size >= TWO_64 then Crash
    else if off + size > |b| then Bad(BadPhOffset)
    else if off + 4 > |b| then Crash
    else if Field(b, off, 4) != PT_LOAD then Skip
    else if off + 56 > |b| then Crash
    else
      var flags, offset, vaddr := Field(b, off + 4, 4), Field(b, off + 8, 8), Field(b, off + 16, 8);
      var filesz, memsz := Field(b, off + 32, 8), Field(b, off + 40, 8);
      if offset + filesz >= TWO_64 then Crash
      else if offset + filesz > |b| then Bad(SegmentOutOfBounds)
      else if vaddr + memsz + 0xFFF >= TWO_64 then Crash
      else Load(Segment(flags / 2 % 2 == 1, flags % 2 == 1, offset, vaddr, filesz, memsz))
  }

  // ---------------------------------------------------------------------------------------
  // The headers of the ELF-64 object file format
  // ---------------------------------------------------------------------------------------

  type u16 = n: nat | n < 0x1_0000

  datatype FileHeader = FileHeader(
    ident: seq<byte>, etype: u16, machine: u16, version: u32, entry: u64, phoff: u64, shoff: u64, flags: u32,
    ehsize: u16, phentsize: u16, phnum: u16, shentsize: u16, shnum: u16, shstrndx: u16)

  datatype ProgramHeader = ProgramHeader(
    ptype: u32, flags: u32, offset: u64, vaddr: u64, paddr: u64, filesz: u64, memsz: u64, align: u64)

  /** The fields one after another, least significant byte first. */
  function Encode(fields: seq<(nat, nat)>): seq<byte>
  {
    if fields == [] then []
    else Encode(fields[..|fields| - 1]) + LittleEndian(fields[|fields| - 1].0, fields[|fields| - 1].1)
  }

  /** Where field `i` begins. */
  function Offset(fields: seq<(nat, nat)>, i: nat): nat
    requires i <= |fields|
  {
    if i == 0 then 0 else Offset(fields, i - 1) + fields[i - 1].1
  }

  lemma {:induction false} EncodedLength(fields: seq<(nat, nat)>)
    ensures |Encode(fields)| == Offset(fields, |fields|)
  {
    if fields != [] {
      EncodedLength(fields[..|fields| - 1]);
      OffsetPrefix(fields, |fields| - 1, |fields| - 1);
    }
  }

  lemma {:induction false} EncodedField(fields: seq<(nat, nat)>, i: nat)
    requires i < |fields|
    ensures Offset(fields, i) + fields[i].1 <= |Encode(fields)|
    ensures Encode(fields)[Offset(fields, i)..Offset(fields, i) + fields[i].1] == LittleEndian(fields[i].0, fields[i].1)
  {
    var n := |fields| - 1;
    var rest, last := fields[..n], fields[n];
    if i == n {
      OffsetPrefix(fields, n, n);
      EncodedLength(rest);
    } else {
      EncodedField(rest, i);
      OffsetPrefix(fields, n, i);
      SliceOfFirst(Encode(rest), LittleEndian(last.0, last.1), Offset(fields, i), fields[i].1);
    }
  }

  lemma {:induction false} OffsetPrefix(fields: seq<(nat, nat)>, n: nat, i: nat)
    requires i <= n <= |fields|
    ensures Offset(fields[..n], i) == Offset(fields, i)
  {
    if i > 0 {
      OffsetPrefix(fields, n, i - 1);
    }
  }

  lemma SliceOfSlice(b: seq<byte>, at: nat, n: nat, o: nat, k: nat)
    requires at + n <= |b| && o + k <= n
    ensures b[at..at + n][o..o + k] == b[at + o..at + o + k]
  {
    var s, t := b[at..at + n][o..o + k], b[at + o..at + o + k];
    assert forall j :: 0 <= j < k ==> s[j] == t[j];
  }

  lemma SliceOfFirst(a: seq<byte>, c: seq<byte>, o: nat, k: nat)
    requires o + k <= |a|
    ensures (a + c)[o..o + k] == a[o..o + k]
  {
  }

  /** A field of a record found at `at` in the file. */
  lemma SliceField(b: seq<byte>, at: nat, e: seq<byte>, o: nat, k: nat, n: nat)
    requires at + |e| <= |b| && b[at..at + |e|] == e && o + k <= |e|
    requires n < Pow256(k) && e[o..o + k] == LittleEndian(n, k)
    ensures Field(b, at + o, k) == n
  {
    SliceOfSlice(b, at, |e|, o, k);
    LittleEndianValue(n, k);
  }

  function ProgramFields(h: ProgramHeader): seq<(nat, nat)>
  {
    [(h.ptype, 4), (h.flags, 4), (h.offset, 8), (h.vaddr, 8), (h.paddr, 8), (h.filesz, 8), (h.memsz, 8), (h.align, 8)]
  }

  function FileFields(h: FileHeader): seq<(nat, nat)>
  {
    [(h.etype, 2), (h.machine, 2), (h.version, 4), (h.entry, 8), (h.phoff, 8), (h.shoff, 8), (h.flags, 4),
     (h.ehsize, 2), (h.phentsize, 2), (h.phnum, 2), (h.shentsize, 2), (h.shnum, 2), (h.shstrndx, 2)]
  }

  lemma ProgramParts(h: ProgramHeader)
    ensures var e := Encode(ProgramFields(h));
            && |e| == 56
            && e[0..4] == LittleEndian(h.ptype, 4) && e[4..8] == LittleEndian(h.flags, 4)
            && e[8..16] == LittleEndian(h.offset, 8) && e[16..24] == LittleEndian(h.vaddr, 8)
            && e[32..40] == LittleEndian(h.filesz, 8) && e[40..48] == LittleEndian(h.memsz, 8)
  {
    var f := ProgramFields(h);
    EncodedLength(f);
    assert Offset(f, 1) == 4;
    assert Offset(f, 2) == 8;
    assert Offset(f, 4) == 24;
    assert Offset(f, 6) == 40;
    assert Offset(f, 8) == 56;
    EncodedField(f, 0); EncodedField(f, 1); EncodedField(f, 2);
    EncodedField(f, 3); EncodedField(f, 5); EncodedField(f, 6);
  }

  /**
   Parsing reads every field of a program header back, wherever the header is and whatever the entry
   size. Type 1 is a loadable segment; bit 1 of the flags makes it writable and bit 0 executable.
   */
  lemma ParseEncoded(b: seq<byte>, i: nat, off: nat, h: ProgramHeader)
    requires 64 <= |b| < TWO_64 && off == Field(b, 32, 8) + i * Field(b, 54, 2)
    requires off + Field(b, 54, 2) <= |b| && off + 56 <= |b| && b[off..off + 56] == Encode(ProgramFields(h))
    ensures i < |Headers(b)| ==> Headers(b)[i] == Parse(b, i)
    ensures h.ptype != 1 ==> Parse(b, i) == Skip
    ensures h.ptype == 1 ==>
              if h.offset + h.filesz >= 0x1_0000_0000_0000_0000 then Parse(b, i) == Crash
              else if h.offset + h.filesz > |b| then Parse(b, i) == Bad(SegmentOutOfBounds)
              else if h.vaddr + h.memsz + 0xFFF >= 0x1_0000_0000_0000_0000 then Parse(b, i) == Crash
              else
                var p := Parse(b, i);
                && p.Load? && p.seg.offset == h.offset && p.seg.vaddr == h.vaddr
                && p.seg.filesz == h.filesz && p.seg.memsz == h.memsz
                && (p.seg.writable <==> h.flags % 4 in {2, 3}) && (p.seg.executable <==> h.flags % 2 == 1)
  {
    ParseAtEncoded(b, off, Field(b, 54, 2), h);
  }

  lemma ParseAtEncoded(b: seq<byte>, off: nat, size: nat, h: ProgramHeader)
    requires |b| < TWO_64 && off + size <= |b| && off + 56 <= |b| && b[off..off + 56] == Encode(ProgramFields(h))
    ensures var p := ParseAt(b, off, size);
            if h.ptype != 1 then p == Skip
            else if h.offset + h.filesz >= 0x1_0000_0000_0000_0000 then p == Crash
            else if h.offset + h.filesz > |b| then p == Bad(SegmentOutOfBounds)
            else if h.vaddr + h.memsz + 0xFFF >= 0x1_0000_0000_0000_0000 then p == Crash
            else p == Load(Segment(h.flags % 4 in {2, 3}, h.flags % 2 == 1, h.offset, h.vaddr, h.filesz, h.memsz))
  {
    ProgramFieldsAt(b, off, h);
    WritableBit(h.flags);
  }

  lemma WritableBit(flags: nat)
    ensures flags / 2 % 2 == 1 <==> flags % 4 in {2, 3}
  {
  }

  lemma ProgramFieldsAt(b: seq<byte>, off: nat, h: ProgramHeader)
    requires off + 56 <= |b| && b[off..off + 56] == Encode(ProgramFields(h))
    ensures Field(b, off, 4) == h.ptype && Field(b, off + 4, 4) == h.flags && Field(b, off + 8, 8) == h.offset
    ensures Field(b, off + 16, 8) == h.vaddr && Field(b, off + 32, 8) == h.filesz && Field(b, off + 40, 8) == h.memsz
  {
    var e := Encode(ProgramFields(h));
    ProgramParts(h);
    Widths();
    SliceField(b, off, e, 0, 4, h.ptype);
    SliceField(b, off, e, 4, 4, h.flags);
    SliceField(b, off, e, 8, 8, h.offset);
    SliceField(b, off, e, 16, 8, h.vaddr);
    SliceField(b, off, e, 32, 8, h.filesz);
    SliceField(b, off, e, 40, 8, h.memsz);
  }

  lemma FileParts(h: FileHeader)
    ensures var e := Encode(FileFields(h));
            && |e| == 48
            && e[0..2] == LittleEndian(h.etype, 2) && e[2..4] == LittleEndian(h.machine, 2)
            && e[8..16] == LittleEndian(h.entry, 8) && e[16..24] == LittleEndian(h.phoff, 8)
            && e[38..40] == LittleEndian(h.phentsize, 2) && e[40..42] == LittleEndian(h.phnum, 2)
  {
    var f := FileFields(h);
    EncodedLength(f);
    assert Offset(f, 1) == 2;
    assert Offset(f, 2) == 4;
    assert Offset(f, 4) == 16;
    assert Offset(f, 6) == 32;
    assert Offset(f, 8) == 38;
    assert Offset(f, 10) == 42;
    assert Offset(f, 12) == 46;
    EncodedField(f, 0); EncodedField(f, 1); EncodedField(f, 3);
    EncodedField(f, 4); EncodedField(f, 8); EncodedField(f, 9);
  }

  lemma FileFieldsAt(b: seq<byte>, h: FileHeader)
    requires |b| >= 64 && b[16..64] == Encode(FileFields(h))
    ensures Field(b, 16, 2) == h.etype && Field(b, 18, 2) == h.machine && Field(b, 24, 8) == h.entry
    ensures Field(b, 32, 8) == h.phoff && Field(b, 54, 2) == h.phentsize && Field(b, 56, 2) == h.phnum
  {
    var e := Encode(FileFields(h));
    FileParts(h);
    Widths();
    SliceField(b, 16, e, 0, 2, h.etype);
    SliceField(b, 16, e, 2, 2, h.machine);
    SliceField(b, 16, e, 8, 8, h.entry);
    SliceField(b, 16, e, 16, 8, h.phoff);
    SliceField(b, 16, e, 38, 2, h.phentsize);
    SliceField(b, 16, e, 40, 2, h.phnum);
  }

  /** The file header checks, and the first that fails; the fields used later are read back. */
  lemma HeaderEncoded(b: seq<byte>, h: FileHeader)
    requires |b| >= 64 && |h.ident| == 16 && b[..64] == h.ident + Encode(FileFields(h))
    ensures CheckHeader(b) ==
              if h.ident[..4] != [0x7f, 0x45, 0x4c, 0x46] then Some(BadMagic)
              else if h.ident[4] != 2 then Some(NotElf64)
              else if h.ident[5] != 1 then Some(NotLittleEndian)
              else if h.machine != 62 then Some(NotX86_64)
              else if h.etype != 2 then Some(NotExecutable)
              else None
    ensures Field(b, 24, 8) == h.entry && Field(b, 32, 8) == h.phoff
    ensures Field(b, 54, 2) == h.phentsize && |Headers(b)| == h.phnum
  {
    assert b[..64][16..] == b[16..64];
    FileFieldsAt(b, h);
    assert b[0..4] == b[..64][..4] == h.ident[..4];
    assert b[4] == b[..64][4] && b[5] == b[..64][5];
  }

  /** A file that loads is entered where its header says. */
  lemma EntryIs(b: seq<byte>, h: FileHeader, room: Room, m: Mapper)
    requires |b| >= 64 && |h.ident| == 16 && b[..64] == h.ident + Encode(FileFields(h))
    ensures LoadOutcome(b, room, m).Loaded? ==> LoadOutcome(b, room, m).entry == h.entry
  {
    HeaderEncoded(b, h);
  }

  // ---------------------------------------------------------------------------------------
  // The segment image
  // ---------------------------------------------------------------------------------------

  function RoundUp(a: nat): nat { Containing(a + 0xFFF) }

  function FirstPage(seg: Segment): nat { Containing(seg.vaddr) }

  function EndPage(seg: Segment): nat { RoundUp(seg.vaddr + seg.memsz) }

  predicate InFile(b: seq<byte>, seg: Segment) { seg.offset + seg.filesz <= |b| }

  /** The byte a segment puts at address `a`: the file's where the file has one, zero elsewhere. */
  function ByteAt(b: seq<byte>, seg: Segment, a: nat): byte
    requires InFile(b, seg)
  {
    if seg.vaddr <= a < seg.vaddr + seg.filesz then b[seg.offset + (a - seg.vaddr)] else 0
  }

  function PageImage(b: seq<byte>, seg: Segment, page: nat): (c: seq<byte>)
    requires InFile(b, seg)
    ensures |c| == PAGE
  {
    seq(PAGE, k requires 0 <= k < PAGE => ByteAt(b, seg, page + k))
  }

  /** A mapped page as the process sees it. */
  datatype PageView = PageView(writable: bool, noExecute: bool, content: Option<seq<byte>>)

  type Space = map<nat, PageView>

  function ViewOf(b: seq<byte>, seg: Segment, page: nat): PageView
    requires InFile(b, seg)
  {
    PageView(seg.writable, !seg.executable, Some(PageImage(b, seg, page)))
  }

  /** The pages of a segment below `end`. */
  function PagesUpTo(seg: Segment, end: nat): set<nat>
  {
    set p: nat | FirstPage(seg) <= p < end && p % PAGE == 0
  }

  function Pages(seg: Segment): set<nat> { PagesUpTo(seg, EndPage(seg)) }

  function SpaceUpTo(b: seq<byte>, seg: Segment, end: nat): (s: Space)
    requires InFile(b, seg)
    ensures s.Keys == PagesUpTo(seg, end)
  {
    map p: nat | FirstPage(seg) <= p < end && p % PAGE == 0 :: ViewOf(b, seg, p)
  }

  function SegmentSpace(b: seq<byte>, seg: Segment): Space
    requires InFile(b, seg)
  {
    SpaceUpTo(b, seg, EndPage(seg))
  }

  /** The program headers the file header announces. */
  function Headers(b: seq<byte>): (hs: seq<Parsed>)
    requires |b| >= 64
    ensures AllInFile(b, hs)
  {
    seq(Field(b, 56, 2), i requires 0 <= i < Field(b, 56, 2) => Parse(b, i))
  }

  predicate AllInFile(b: seq<byte>, hs: seq<Parsed>)
  {
    forall i :: 0 <= i < |hs| && hs[i].Load? ==> InFile(b, hs[i].seg)
  }

  /** The pages of all the segments. */
  function FileSpace(b: seq<byte>, hs: seq<Parsed>): Space
    requires AllInFile(b, hs)
  {
    if hs == [] then map[]
    else
      var rest, last := FileSpace(b, hs[..|hs| - 1]), hs[|hs| - 1];
      if last.Load? then rest + SegmentSpace(b, last.seg) else rest
  }

  /** Whole pages lead from `p` to `end`. */
  predicate Reaches(p: nat, end: nat)
    decreases end - p
  {
    p == end || (p < end && Reaches(p + PAGE, end))
  }

  lemma {:induction false} AlignedReaches(p: nat, end: nat)
    requires end % PAGE == 0 && p <= end
    ensures Reaches(p, end) <==> p % PAGE == 0
    decreases end - p
  {
    if p + PAGE <= end {
      AlignedReaches(p + PAGE, end);
    }
  }

  lemma PageRange(seg: Segment)
    ensures FirstPage(seg) <= EndPage(seg) && FirstPage(seg) % PAGE == 0 && EndPage(seg) % PAGE == 0
    ensures Reaches(FirstPage(seg), EndPage(seg))
  {
    AlignedReaches(FirstPage(seg), EndPage(seg));
  }

  lemma NextPage(p: nat, end: nat)
    requires p % PAGE == 0 && end % PAGE == 0 && p < end
    ensures p + PAGE <= end && (p + PAGE) % PAGE == 0
  {
  }

  /** The pages of a segment are exactly the ones its memory reaches into, and the one an unaligned empty one is in. */
  lemma PagesExactly(seg: Segment, p: nat)
    ensures p in Pages(seg) <==> p % 4096 == 0 && seg.vaddr < p + 4096 && p < seg.vaddr + seg.memsz
  {
    if p % 4096 == 0 {
      PageEdges(seg.vaddr, p);
      PageEdges(seg.vaddr + seg.memsz + 0xFFF, p);
    }
  }

  lemma PageEdges(a: nat, p: nat)
    requires p % PAGE == 0
    ensures Containing(a) <= p <==> a < p + PAGE
    ensures p < Containing(a) <==> p + PAGE <= a
  {
  }

  /** Where the copy into a page starts and ends. */
  function CopyStart(seg: Segment, page: nat): nat { if seg.vaddr > page then seg.vaddr else page }

  function CopyEnd(seg: Segment, page: nat): nat
  {
    if seg.vaddr + seg.filesz < page + PAGE then seg.vaddr + seg.filesz else page + PAGE
  }

  /** The part of the file that falls into a page, laid over zeroes, is the image of the page. */
  lemma CopyIsImage(b: seq<byte>, seg: Segment, page: nat)
    requires InFile(b, seg)
    ensures var from, to := CopyStart(seg, page), CopyEnd(seg, page);
            if from < to
            then var data := b[seg.offset + (from - seg.vaddr)..seg.offset + (to - seg.vaddr)];
                 PageImage(b, seg, page) == Zeros(from - page) + data + Zeros(page + PAGE - to)
            else PageImage(b, seg, page) == Zeros(PAGE)
  {
    var from, to, image := CopyStart(seg, page), CopyEnd(seg, page), PageImage(b, seg, page);
    assert forall k :: 0 <= k < PAGE ==> image[k] == ByteAt(b, seg, page + k);
    if from < to {
      var data := b[seg.offset + (from - seg.vaddr)..seg.offset + (to - seg.vaddr)];
      var copied := Zeros(from - page) + data + Zeros(page + PAGE - to);
      forall k | 0 <= k < PAGE
        ensures copied[k] == image[k]
      {
        assert image[k] == ByteAt(b, seg, page + k);
      }
    } else {
      forall k | 0 <= k < PAGE
        ensures image[k] == 0
      {
        assert image[k] == ByteAt(b, seg, page + k);
      }
    }
  }

  // ---------------------------------------------------------------------------------------
  // Which files load
  // ---------------------------------------------------------------------------------------

  /** The page-table mapper: the tables a page needs, and whether it refuses the page. */
  datatype Mapper = Mapper(need: nat -> nat, refuse: nat -> bool) {
    function Needs(page: nat): nat { need(page) }

    predicate Refuses(page: nat) { refuse(page) }
  }

  /** What is mapped, and how many frames there are left. */
  datatype Room = Room(mapped: set<nat>, left: nat)

  datatype Attempt = Done(room: Room) | Stop(outcome: Outcome)

  /** Bits 47 to 63 all equal. */
  predicate Canonical(a: nat) { a < 0x8000_0000_0000 || a >= TWO_64 - 0x8000_0000_0000 }

  /** An address below 2^64 is canonical exactly when its 17 high bits are all 0 or all 1. */
  lemma CanonicalIs(a: nat)
    requires a < 0x1_0000_0000_0000_0000
    ensures Canonical(a) <==> a / 0x8000_0000_0000 == 0 || a / 0x8000_0000_0000 == 0x1_FFFF
  {
  }

  /** A frame for a page, and the page mapped onto it. */
  function TryPlace(page: nat, room: Room, m: Mapper): (t: Attempt)
    ensures t.Stop? ==> !t.outcome.Loaded?
  {
    if room.left == 0 then Stop(Error(FrameAllocFailed))
    else if !Canonical(page) then Stop(Panicked)
    else if room.left - 1 < m.Needs(page) || m.Refuses(page) || page in room.mapped then Stop(Error(PageMapFailed))
    else Done(Room(room.mapped + {page}, room.left - 1 - m.Needs(page)))
  }

  function TryPage(seg: Segment, page: nat, room: Room, m: Mapper): (t: Attempt)
    ensures t.Stop? ==> !t.outcome.Loaded?
  {
    var t := TryPlace(page, room, m);
    if t.Done? && seg.vaddr + seg.filesz >= TWO_64 then Stop(Panicked) else t
  }

  function TryPages(seg: Segment, page: nat, room: Room, m: Mapper): (t: Attempt)
    ensures t.Stop? ==> !t.outcome.Loaded?
    decreases EndPage(seg) - page
  {
    if page >= EndPage(seg) then Done(room)
    else
      match TryPage(seg, page, room, m)
      case Stop(o) => Stop(o)
      case Done(next) => TryPages(seg, page + PAGE, next, m)
  }

  function TryAll(hs: seq<Parsed>, room: Room, m: Mapper): (t: Attempt)
    ensures t.Stop? ==> !t.outcome.Loaded?
  {
    if hs == [] then Done(room)
    else
      match hs[0]
      case Bad(e) => Stop(Error(e))
      case Crash => Stop(Panicked)
      case Skip => TryAll(hs[1..], room, m)
      case Load(seg) =>
        match TryPages(seg, FirstPage(seg), room, m)
        case Stop(o) => Stop(o)
        case Done(next) => TryAll(hs[1..], next, m)
  }

  /** The outcome of loading a file: the first thing that goes wrong, or the entry point. */
  function LoadOutcome(b: seq<byte>, room: Room, m: Mapper): Outcome
  {
    if CheckHeader(b).Some? then Error(CheckHeader(b).value)
    else
      match TryAll(Headers(b), room, m)
      case Stop(o) => o
      case Done(_) => Loaded(Field(b, 24, 8))
  }

  function PagesFrom(seg: Segment, page: nat): set<nat>
  {
    set p: nat | page <= p < EndPage(seg) && p % PAGE == 0
  }

  /** Frames for the pages from `page` on, each with the tables it needs. */
  function Cost(seg: Segment, page: nat, m: Mapper): nat
    decreases EndPage(seg) - page
  {
    if page >= EndPage(seg) then 0 else 1 + m.Needs(page) + Cost(seg, page + PAGE, m)
  }

  function FramesNeeded(hs: seq<Parsed>, m: Mapper): nat
  {
    if hs == [] then 0
    else (if hs[0].Load? then Cost(hs[0].seg, FirstPage(hs[0].seg), m) else 0) + FramesNeeded(hs[1..], m)
  }

  /** Pages that are free, canonical and not refused, and a file part that ends below 2^64. */
  predicate Placeable(seg: Segment, pages: set<nat>, mapped: set<nat>, m: Mapper)
  {
    && pages !! mapped
    && (forall p :: p in pages ==> Canonical(p) && !m.Refuses(p))
    && (pages != {} ==> seg.vaddr + seg.filesz < TWO_64)
  }

  lemma FromHere(seg: Segment, page: nat)
    requires page % PAGE == 0
    ensures page !in PagesFrom(seg, page + PAGE)
    ensures page < EndPage(seg) ==> PagesFrom(seg, page) == {page} + PagesFrom(seg, page + PAGE)
    ensures page >= EndPage(seg) ==> PagesFrom(seg, page) == {}
  {
    forall p | page < p && p % PAGE == 0
      ensures page + PAGE <= p
    {
      NextPage(page, p);
    }
  }

  /** A segment loads exactly when its pages are placeable and the frames suffice. */
  lemma {:induction false} PagesLoadExactly(seg: Segment, page: nat, room: Room, m: Mapper)
    requires page % PAGE == 0
    ensures TryPages(seg, page, room, m).Done? <==>
              Placeable(seg, PagesFrom(seg, page), room.mapped, m) && Cost(seg, page, m) <= room.left
    ensures var t := TryPages(seg, page, room, m);
            t.Done? ==> t.room == Room(room.mapped + PagesFrom(seg, page), room.left - Cost(seg, page, m))
    decreases EndPage(seg) - page
  {
    FromHere(seg, page);
    if page < EndPage(seg) {
      var t := TryPage(seg, page, room, m);
      if t.Done? {
        PagesLoadExactly(seg, page + PAGE, t.room, m);
      }
    }
  }

  /** The headers can be loaded one after the other into `room`. */
  predicate Fits(hs: seq<Parsed>, room: Room, m: Mapper)
  {
    && Loadable(hs)
    && (forall i :: 0 <= i < |hs| && hs[i].Load? ==> Placeable(hs[i].seg, Pages(hs[i].seg), room.mapped, m))
    && FramesNeeded(hs, m) <= room.left
  }

  lemma {:induction false} LoadsExactly(hs: seq<Parsed>, room: Room, m: Mapper)
    ensures TryAll(hs, room, m).Done? <==> Fits(hs, room, m)
  {
    if hs != [] {
      var tail := hs[1..];
      assert forall i :: 0 <= i < |tail| ==> tail[i] == hs[i + 1];
      if hs[0].Skip? {
        LoadsExactly(tail, room, m);
        ConsFits(hs, room, room, m);
      } else if hs[0].Load? {
        var seg := hs[0].seg;
        PagesLoadExactly(seg, FirstPage(seg), room, m);
        var t := TryPages(seg, FirstPage(seg), room, m);
        if t.Done? {
          LoadsExactly(tail, t.room, m);
          ConsFits(hs, room, t.room, m);
        }
      }
    }
  }

  /** A file loads exactly when its header is in order and all its segments fit. */
  lemma OutcomeExactly(b: seq<byte>, room: Room, m: Mapper)
    ensures LoadOutcome(b, room, m).Loaded? <==> CheckHeader(b) == None && Fits(Headers(b), room, m)
  {
    if CheckHeader(b) == None {
      LoadsExactly(Headers(b), room, m);
    }
  }

  /** The first header fits and the others fit into what it leaves, exactly when they all fit. */
  lemma ConsFits(hs: seq<Parsed>, room: Room, next: Room, m: Mapper)
    requires hs != [] && (hs[0].Skip? || hs[0].Load?)
    requires hs[0].Skip? ==> next == room
    requires hs[0].Load? ==> var seg := hs[0].seg;
                             && Placeable(seg, Pages(seg), room.mapped, m) && Cost(seg, FirstPage(seg), m) <= room.left
                             && next == Room(room.mapped + Pages(seg), room.left - Cost(seg, FirstPage(seg), m))
    ensures Fits(hs, room, m) <==> Fits(hs[1..], next, m)
  {
    var tail := hs[1..];
    assert forall i :: 0 <= i < |tail| ==> tail[i] == hs[i + 1];
    assert forall i :: 0 < i < |hs| ==> hs[i] == tail[i - 1];
  }

  // ---------------------------------------------------------------------------------------
  // The machine
  // ---------------------------------------------------------------------------------------

  datatype Mapping = Mapping(frame: nat, writable: bool, noExecute: bool)

  /** Every mapped page with its flags and the contents of its frame. */
  function SpaceOf(pages: map<nat, Mapping>, frames: map<nat, seq<byte>>): Space
  {
    map p | p in pages ::
      PageView(pages[p].writable, pages[p].noExecute,
               if pages[p].frame in frames then Some(frames[pages[p].frame]) else None)
  }

  /** No frame still to be handed out is in use, and no frame is both page and table. */
  predicate Separate(pages: map<nat, Mapping>, tables: set<nat>, left: seq<nat>)
  {
    && Distinct(left)
    && (forall p :: p in pages ==> pages[p].frame !in left)
    && tables !! (set f | f in left)
    && (forall p :: p in pages ==> pages[p].frame !in tables)
  }

  /** The first frame left can become a page or a table. */
  lemma FirstTaken(pages: map<nat, Mapping>, tables: set<nat>, frames: map<nat, seq<byte>>, left: seq<nat>)
    requires Separate(pages, tables, left) && left != []
    ensures left[0] !in left[1..] && left[0] !in tables
    ensures forall p :: p in pages ==> pages[p].frame != left[0]
    ensures Separate(pages, tables, left[1..]) && Separate(pages, tables + {left[0]}, left[1..])
    ensures SpaceOf(pages, frames - {left[0]}) == SpaceOf(pages, frames)
  {
    assert left == [left[0]] + left[1..];
  }

  class Machine {
    const alloc: BootInfoFrameAllocator
    /** The page table: the frame and flags of every mapped page. */
    var pages: map<nat, Mapping>
    /** The contents of the frames whose contents are known. */
    var frames: map<nat, seq<byte>>
    /** Frames taken for page tables. */
    var tables: set<nat>

    ghost predicate Valid()
      reads this, alloc
    {
      Separate(pages, tables, alloc.Left())
    }

    ghost function Space(): Space
      reads this
    {
      SpaceOf(pages, frames)
    }

    ghost function RoomLeft(): Room
      reads this, alloc
    {
      Room(pages.Keys, |alloc.Left()|)
    }

    constructor (alloc: BootInfoFrameAllocator, pages: map<nat, Mapping>, frames: map<nat, seq<byte>>)
      requires Distinct(alloc.Left()) && forall p :: p in pages ==> pages[p].frame !in alloc.Left()
      ensures Valid() && this.alloc == alloc && this.pages == pages && this.frames == frames
    {
      this.alloc, this.pages, this.frames, this.tables := alloc, pages, frames, {};
    }

    /** Take one frame for a new page table; its contents are lost. */
    method TakeTable(ghost frame: nat) returns (ok: bool)
      requires Valid() && frame !in alloc.Left() && frame !in tables
      modifies this`frames, this`tables, alloc
      ensures Valid() && Space() == old(Space()) && frame !in alloc.Left() && frame !in tables
      ensures ok <==> old(alloc.Left()) != []
      ensures ok ==> |alloc.Left()| == |old(alloc.Left())| - 1
    {
      ghost var left := alloc.Left();
      var t := alloc.AllocateFrame();
      ok := t.Some?;
      if ok {
        FirstTaken(pages, tables, frames, left);
        tables := tables + {t.value};
        frames := frames - {t.value};
      }
    }

    /** The mapper: take the tables the page needs, then enter the page unless it is mapped already or refused. */
    method MapTo(page: nat, m: Mapping, need: nat, refuse: bool) returns (ok: bool)
      requires Valid() && m.frame !in alloc.Left() && m.frame !in tables
      modifies this`pages, this`frames, this`tables, alloc
      ensures Valid() && m.frame !in alloc.Left() && m.frame !in tables
      ensures ok <==> need <= |old(alloc.Left())| && !refuse && page !in old(pages)
      ensures ok ==> pages == old(pages)[page := m] && |alloc.Left()| == |old(alloc.Left())| - need
      ensures !ok ==> pages == old(pages)
      ensures SpaceOf(old(pages), frames) == old(Space())
    {
      for i := 0 to need
        invariant Valid() && Space() == old(Space()) && m.frame !in alloc.Left() && m.frame !in tables
        invariant pages == old(pages) && |alloc.Left()| == |old(alloc.Left())| - i
      {
        ok := TakeTable(m.frame);
        if !ok {
          return;
        }
      }
      ok := !refuse && page !in pages;
      if ok {
        pages := pages[page := m];
      }
    }

    /** Zero the page's frame, then copy the file bytes that fall into the page. */
    method FillFrame(b: seq<byte>, seg: Segment, page: nat, frame: nat) returns (panicked: bool)
      requires InFile(b, seg)
      modifies this`frames
      ensures panicked <==> seg.vaddr + seg.filesz >= TWO_64
      ensures !panicked ==> frames == old(frames)[frame := PageImage(b, seg, page)]
      ensures RoomLeft() == old(RoomLeft()) && Valid() == old(Valid())
    {
      frames := frames[frame := Zeros(PAGE)];
      panicked := seg.vaddr + seg.filesz >= TWO_64;
      if panicked {
        return;
      }
      CopyIsImage(b, seg, page);
      var from, to := CopyStart(seg, page), CopyEnd(seg, page);
      if from < to {
        var src, dst, len := from - seg.vaddr, from - page, to - from;
        var data := b[seg.offset + src..seg.offset + src + len];
        frames := frames[frame := frames[frame][..dst] + data + frames[frame][dst + len..]];
        assert Zeros(PAGE)[..dst] == Zeros(dst) && Zeros(PAGE)[dst + len..] == Zeros(page + PAGE - to);
      }
    }

    /** Take a frame for a page and map the page onto it. */
    method PlacePage(seg: Segment, page: nat, mapper: Mapper) returns (r: Option<Outcome>, m: Mapping)
      requires Valid()
      modifies this, alloc
      ensures Follows(TryPlace(page, old(RoomLeft()), mapper), r, RoomLeft())
      ensures r == Some(Error(FrameAllocFailed)) <==> old(alloc.Left()) == []
      ensures r == Some(Error(PageMapFailed)) <==>
                && old(alloc.Left()) != [] && Canonical(page)
                && (|old(alloc.Left())| <= mapper.Needs(page) || mapper.Refuses(page) || page in old(pages))
      ensures r == None ==> pages == old(pages)[page := m]
      ensures r == None ==> m == Mapping(m.frame, seg.writable, !seg.executable)
      ensures r == None ==> forall p :: p in old(pages) ==> old(pages)[p].frame != m.frame
      ensures r == None ==> SpaceOf(old(pages), frames) == old(Space())
      ensures r.Some? ==> Space() == old(Space())
      ensures r != Some(Panicked) ==> Valid()
    {
      ghost var left := alloc.Left();
      var f := alloc.AllocateFrame();
      m := Mapping(if f.Some? then f.value else 0, seg.writable, !seg.executable);
      if f.None? {
        return Some(Error(FrameAllocFailed)), m;
      }
      FirstTaken(pages, tables, frames, left);
      if !Canonical(page) {
        return Some(Panicked), m;
      }
      var ok := MapTo(page, m, mapper.Needs(page), mapper.Refuses(page));
      assert ok ==> pages.Keys == old(pages).Keys + {page};
      r := if ok then None else Some(Error(PageMapFailed));
    }

    /** Place one page of a segment and fill it. */
    method LoadPage(b: seq<byte>, seg: Segment, page: nat, mapper: Mapper) returns (r: Option<Outcome>)
      requires Valid() && InFile(b, seg)
      modifies this, alloc
      ensures Follows(TryPage(seg, page, old(RoomLeft()), mapper), r, RoomLeft())
      ensures r != Some(Panicked) ==> Valid()
      ensures r == None ==> Space() == old(Space())[page := ViewOf(b, seg, page)]
      ensures r.Some? && r.value.Error? ==> Space() == old(Space())
    {
      var m;
      r, m := PlacePage(seg, page, mapper);
      if r.Some? {
        return;
      }
      ghost var mid := frames;
      var panicked := FillFrame(b, seg, page, m.frame);
      if panicked {
        return Some(Panicked);
      }
      FreshFrame(old(pages), page, m, mid, PageImage(b, seg, page));
    }

    /** The next page of a segment, the ones before it being loaded already. */
    method LoadNext(ghost before: Space, b: seq<byte>, seg: Segment, page: nat, mapper: Mapper)
      returns (r: Option<Outcome>)
      requires Valid() && InFile(b, seg) && FirstPage(seg) <= page < EndPage(seg) && Reaches(page, EndPage(seg))
      requires Extends(before, SpaceUpTo(b, seg, page), Space())
      modifies this, alloc
      ensures var t := TryPages(seg, page, old(RoomLeft()), mapper);
              if r == None then TryPages(seg, page + PAGE, RoomLeft(), mapper) == t else t == Stop(r.value)
      ensures r != Some(Panicked) ==> Valid()
      ensures r == None ==> Extends(before, SpaceUpTo(b, seg, page + PAGE), Space())
      ensures r.Some? && r.value.Error? ==> Keeps(before, Space())
    {
      r := LoadPage(b, seg, page, mapper);
      if r == None {
        PageRange(seg);
        AlignedReaches(page, EndPage(seg));
        OnePageMore(before, b, seg, page, Space());
      }
    }

    /** Map and copy one page at a time. */
    method LoadSegment(b: seq<byte>, seg: Segment, mapper: Mapper) returns (r: Option<Outcome>)
      requires Valid() && InFile(b, seg)
      modifies this, alloc
      ensures Follows(TryPages(seg, FirstPage(seg), old(RoomLeft()), mapper), r, RoomLeft())
      ensures r != Some(Panicked) ==> Valid()
      ensures r == None ==> Extends(old(Space()), SegmentSpace(b, seg), Space())
      ensures r.Some? && r.value.Error? ==> Keeps(old(Space()), Space())
    {
      ghost var before := Space();
      var vpage, end := FirstPage(seg), EndPage(seg);
      PageRange(seg);
      NoPages(before, b, seg);
      while vpage < end
        invariant FirstPage(seg) <= vpage <= end && Reaches(vpage, end)
        invariant Valid() && Extends(before, SpaceUpTo(b, seg, vpage), Space())
        invariant TryPages(seg, vpage, RoomLeft(), mapper) == TryPages(seg, FirstPage(seg), old(RoomLeft()), mapper)
      {
        r := LoadNext(before, b, seg, vpage, mapper);
        if r.Some? {
          return;
        }
        vpage := vpage + PAGE;
      }
      r := None;
    }

    /** Take the program headers in order and load the PT_LOAD segments. */
    method LoadAll(b: seq<byte>, hs: seq<Parsed>, mapper: Mapper) returns (r: Option<Outcome>)
      requires Valid() && AllInFile(b, hs)
      modifies this, alloc
      ensures Follows(TryAll(hs, old(RoomLeft()), mapper), r, RoomLeft())
      ensures r != Some(Panicked) ==> Valid()
      ensures r == None ==> Extends(old(Space()), FileSpace(b, hs), Space())
      ensures r.Some? && r.value.Error? ==> Keeps(old(Space()), Space())
    {
      ghost var before := Space();
      for i := 0 to |hs|
        invariant Valid() && Loadable(hs[..i]) && Extends(before, FileSpace(b, hs[..i]), Space())
        invariant TryAll(hs[i..], RoomLeft(), mapper) == TryAll(hs, old(RoomLeft()), mapper)
      {
        assert hs[..i + 1][..i] == hs[..i] && hs[i..][1..] == hs[i + 1..];
        match hs[i]
        case Bad(e) => return Some(Error(e));
        case Crash => return Some(Panicked);
        case Skip => OneSkipMore(b, hs[..i + 1]);
        case Load(seg) =>
          ghost var mid := Space();
          r := LoadSegment(b, seg, mapper);
          if r.Some? {
            return;
          }
          OneSegmentMore(before, b, hs[..i + 1], mid, Space());
      }
      assert hs[..|hs|] == hs && hs[|hs|..] == [];
      r := None;
    }

    /** Check the file header, then load. */
    method Load(b: seq<byte>, mapper: Mapper) returns (r: Outcome)
      requires Valid()
      modifies this, alloc
      ensures r == LoadOutcome(b, old(RoomLeft()), mapper)
      ensures r != Panicked ==> Valid()
      ensures r.Loaded? ==> Extends(old(Space()), FileSpace(b, Headers(b)), Space())
      ensures r.Loaded? ==> Realised(b, Headers(b), Space())
      ensures r.Error? ==> Keeps(old(Space()), Space())
    {
      var bad := CheckHeader(b);
      if bad.Some? {
        return Error(bad.value);
      }
      var s := LoadSegments(b, Headers(b), mapper);
      r := if s.Some? then s.value else Loaded(Field(b, 24, 8));
    }

    /** Load all the segments; if that succeeds, every one of them is there. */
    method LoadSegments(b: seq<byte>, hs: seq<Parsed>, mapper: Mapper) returns (r: Option<Outcome>)
      requires Valid() && AllInFile(b, hs)
      modifies this, alloc
      ensures Follows(TryAll(hs, old(RoomLeft()), mapper), r, RoomLeft())
      ensures r != Some(Panicked) ==> Valid()
      ensures r == None ==> Extends(old(Space()), FileSpace(b, hs), Space())
      ensures r == None ==> Realised(b, hs, Space())
      ensures r.Some? && r.value.Error? ==> Keeps(old(Space()), Space())
    {
      ghost var before, room := Space(), RoomLeft();
      r := LoadAll(b, hs, mapper);
      if r == None {
        AllRealised(b, hs, room, mapper, before, Space());
      }
    }
  }

  /** The result and the room left are those of the attempt. */
  predicate Follows(t: Attempt, r: Option<Outcome>, room: Room)
  {
    match t
    case Stop(o) => r == Some(o)
    case Done(next) => r == None && room == next
  }

  /** What was mapped before is still there, unchanged. */
  predicate Keeps(s: Space, t: Space) { forall p :: p in s ==> p in t && t[p] == s[p] }

  /** `t` is `s` with the pages `added`, none of which was there before. */
  predicate Extends(s: Space, added: Space, t: Space) { t == s + added && s.Keys !! added.Keys }

  lemma NoPages(before: Space, b: seq<byte>, seg: Segment)
    requires InFile(b, seg)
    ensures Extends(before, SpaceUpTo(b, seg, FirstPage(seg)), before)
  {
    assert SpaceUpTo(b, seg, FirstPage(seg)) == map[];
  }

  lemma OnePageMore(before: Space, b: seq<byte>, seg: Segment, page: nat, now: Space)
    requires InFile(b, seg) && FirstPage(seg) <= page && page % PAGE == 0
    requires var s := before + SpaceUpTo(b, seg, page); page !in s && now == s[page := ViewOf(b, seg, page)]
    requires before.Keys !! SpaceUpTo(b, seg, page).Keys
    ensures Extends(before, SpaceUpTo(b, seg, page + PAGE), now)
  {
    var s, t := SpaceUpTo(b, seg, page), SpaceUpTo(b, seg, page + PAGE);
    forall p | page < p && p % PAGE == 0
      ensures page + PAGE <= p
    {
      NextPage(page, p);
    }
    assert forall p :: p in t <==> p in s || p == page;
    assert t == s[page := ViewOf(b, seg, page)];
  }

  /** If both are segments, they share no page. */
  predicate Apart(h: Parsed, g: Parsed)
  {
    h.Load? && g.Load? ==> Pages(h.seg) !! Pages(g.seg)
  }

  /** The program headers are all in order, and no two of their segments share a page. */
  predicate Loadable(hs: seq<Parsed>)
  {
    && (forall i :: 0 <= i < |hs| ==> hs[i].Skip? || hs[i].Load?)
    && (forall i, j :: 0 <= i < |hs| && i < j < |hs| ==> Apart(hs[i], hs[j]))
  }

  lemma OneSkipMore(b: seq<byte>, hs: seq<Parsed>)
    requires AllInFile(b, hs) && hs != [] && Loadable(hs[..|hs| - 1]) && hs[|hs| - 1].Skip?
    ensures Loadable(hs) && FileSpace(b, hs) == FileSpace(b, hs[..|hs| - 1])
  {
    var hs' := hs[..|hs| - 1];
    assert forall i :: 0 <= i < |hs'| ==> hs'[i] == hs[i];
  }

  lemma {:induction false} FileSpaceHolds(b: seq<byte>, hs: seq<Parsed>, i: nat)
    requires AllInFile(b, hs) && i < |hs| && hs[i].Load?
    ensures Pages(hs[i].seg) <= FileSpace(b, hs).Keys
  {
    var hs' := hs[..|hs| - 1];
    if i < |hs'| {
      FileSpaceHolds(b, hs', i);
      assert hs'[i] == hs[i];
    }
  }

  lemma OneSegmentMore(before: Space, b: seq<byte>, hs: seq<Parsed>, mid: Space, now: Space)
    requires AllInFile(b, hs) && hs != [] && Loadable(hs[..|hs| - 1]) && hs[|hs| - 1].Load?
    requires Extends(before, FileSpace(b, hs[..|hs| - 1]), mid)
    requires Extends(mid, SegmentSpace(b, hs[|hs| - 1].seg), now)
    ensures Loadable(hs) && Extends(before, FileSpace(b, hs), now)
  {
    var n := |hs| - 1;
    var hs' := hs[..n];
    assert forall i :: 0 <= i < n ==> hs'[i] == hs[i];
    forall i | 0 <= i < n
      ensures Apart(hs[i], hs[n])
    {
      if hs[i].Load? {
        FileSpaceHolds(b, hs', i);
      }
    }
    forall i, j | 0 <= i < |hs| && i < j < |hs|
      ensures Apart(hs[i], hs[j])
    {
      if j < n {
        assert Apart(hs'[i], hs'[j]);
      }
    }
  }

  /** A page on a frame no other page uses changes nothing but itself. */
  lemma FreshFrame(pages: map<nat, Mapping>, page: nat, m: Mapping, frames: map<nat, seq<byte>>, content: seq<byte>)
    requires forall p :: p in pages ==> pages[p].frame != m.frame
    ensures SpaceOf(pages[page := m], frames[m.frame := content]) ==
            SpaceOf(pages, frames)[page := PageView(m.writable, m.noExecute, Some(content))]
  {
  }

  // ---------------------------------------------------------------------------------------
  // What a loaded file looks like
  // ---------------------------------------------------------------------------------------

  /** Later segments leave the pages of earlier ones alone. */
  lemma {:induction false} FileSpaceIs(b: seq<byte>, hs: seq<Parsed>, i: nat, p: nat)
    requires AllInFile(b, hs) && Loadable(hs) && i < |hs| && hs[i].Load? && p in Pages(hs[i].seg)
    ensures p in FileSpace(b, hs) && FileSpace(b, hs)[p] == ViewOf(b, hs[i].seg, p)
  {
    var n := |hs| - 1;
    var hs' := hs[..n];
    if i < n {
      assert forall k :: 0 <= k < n ==> hs'[k] == hs[k];
      FileSpaceIs(b, hs', i, p);
      assert Apart(hs[i], hs[n]);
    }
  }

  /** An address in one of a segment's pages. */
  predicate InPages(seg: Segment, a: nat) { FirstPage(seg) <= a < EndPage(seg) }

  /**
   Every byte of every page of every segment: the file's byte where the segment has one there,
   zero in the rest of the page, writable exactly if the segment is, and not executable exactly
   if the segment is not.
   */
  lemma LoadedByte(b: seq<byte>, hs: seq<Parsed>, i: nat, a: nat)
    requires AllInFile(b, hs) && Loadable(hs) && i < |hs| && hs[i].Load? && InPages(hs[i].seg, a)
    ensures var seg, space, p := hs[i].seg, FileSpace(b, hs), Containing(a);
            && p in space
            && space[p].writable == seg.writable && space[p].noExecute == !seg.executable
            && space[p].content.Some? && |space[p].content.value| == PAGE
            && space[p].content.value[a % PAGE] == ByteAt(b, seg, a)
  {
    PageOf(hs[i].seg, a);
    FileSpaceIs(b, hs, i, Containing(a));
  }

  lemma PageOf(seg: Segment, a: nat)
    requires InPages(seg, a)
    ensures var p := Containing(a); p % PAGE == 0 && FirstPage(seg) <= p < EndPage(seg) && p + a % PAGE == a
  {
    PageRange(seg);
    WithinPage(a);
    if Containing(a) < FirstPage(seg) {
      NextPage(Containing(a), FirstPage(seg));
    }
  }

  lemma WithinPage(a: nat)
    ensures Containing(a) % PAGE == 0 && Containing(a) <= a < Containing(a) + PAGE
  {
  }

  /** All of a segment's memory is mapped; its file part is exactly when it ends within the segment's pages. */
  lemma CoversExactly(seg: Segment)
    ensures forall a :: seg.vaddr <= a < seg.vaddr + seg.memsz ==> InPages(seg, a)
    ensures (forall a :: seg.vaddr <= a < seg.vaddr + seg.filesz ==> InPages(seg, a)) <==>
              seg.filesz == 0 || seg.vaddr + seg.filesz <= EndPage(seg)
  {
    RoundUpBounds(seg.vaddr + seg.memsz);
    if seg.filesz > 0 && forall a :: seg.vaddr <= a < seg.vaddr + seg.filesz ==> InPages(seg, a) {
      assert InPages(seg, seg.vaddr + seg.filesz - 1);
    }
  }

  /**
   Byte `k` of a segment's memory is there: the file's byte if the file has one, zero otherwise, on a
   page with the segment's permissions.
   */
  predicate HoldsByte(b: seq<byte>, seg: Segment, space: Space, k: nat)
    requires InFile(b, seg)
  {
    var a := seg.vaddr + k;
    && Containing(a) in space
    && var view := space[Containing(a)];
    && view.writable == seg.writable && view.noExecute == !seg.executable
    && view.content.Some? && |view.content.value| == PAGE
    && view.content.value[a % PAGE] == if k < seg.filesz then b[seg.offset + k] else 0
  }

  /** All the memory of all the segments is there. */
  predicate Realised(b: seq<byte>, hs: seq<Parsed>, space: Space)
    requires AllInFile(b, hs)
  {
    forall i, k :: 0 <= i < |hs| && hs[i].Load? && 0 <= k < hs[i].seg.memsz ==> HoldsByte(b, hs[i].seg, space, k)
  }

  lemma SegmentRealised(b: seq<byte>, hs: seq<Parsed>, i: nat, k: nat)
    requires AllInFile(b, hs) && Loadable(hs) && i < |hs| && hs[i].Load? && k < hs[i].seg.memsz
    ensures HoldsByte(b, hs[i].seg, FileSpace(b, hs), k)
  {
    CoversExactly(hs[i].seg);
    LoadedByte(b, hs, i, hs[i].seg.vaddr + k);
  }

  /** A successful load realises every segment in the space it leaves. */
  lemma AllRealised(b: seq<byte>, hs: seq<Parsed>, room: Room, m: Mapper, before: Space, now: Space)
    requires AllInFile(b, hs) && TryAll(hs, room, m).Done? && Extends(before, FileSpace(b, hs), now)
    ensures Realised(b, hs, now)
  {
    LoadsExactly(hs, room, m);
    forall i, k | 0 <= i < |hs| && hs[i].Load? && 0 <= k < hs[i].seg.memsz
      ensures HoldsByte(b, hs[i].seg, now, k)
    {
      SegmentRealised(b, hs, i, k);
      StillHolds(b, hs[i].seg, FileSpace(b, hs), now, k);
    }
  }

  lemma StillHolds(b: seq<byte>, seg: Segment, s: Space, t: Space, k: nat)
    requires InFile(b, seg) && HoldsByte(b, seg, s, k) && Keeps(s, t)
    ensures HoldsByte(b, seg, t, k)
  {
  }

  /**
   The loader on the boot frame allocator: if the usable regions start on page boundaries, do not
   overlap and hold nothing that is mapped, then loading any file has the stated outcome, and on
   success every byte of every segment is in place, the space has grown by exactly the pages of the
   file, slack included, and what was mapped before is unchanged.
   */
  method LoadAtBoot(regions: seq<Region>, pages: map<nat, Mapping>, frames: map<nat, seq<byte>>,
                    b: seq<byte>, mapper: Mapper)
    returns (r: Outcome, machine: Machine)
    requires forall i :: 0 <= i < |regions| ==> regions[i].start % PAGE == 0
    requires forall i, j :: 0 <= i < |regions| && i < j < |regions| ==>
               regions[i].end <= regions[j].start || regions[j].end <= regions[i].start
    requires forall p :: p in pages ==> pages[p].frame !in UsableFrames(regions)
    ensures fresh(machine) && r == LoadOutcome(b, Room(pages.Keys, |UsableFrames(regions)|), mapper)
    ensures r.Loaded? ==> Realised(b, Headers(b), machine.Space())
    ensures r.Loaded? ==> Extends(SpaceOf(pages, frames), FileSpace(b, Headers(b)), machine.Space())
    ensures r != Panicked ==> machine.Valid() && Keeps(SpaceOf(pages, frames), machine.Space())
  {
    AlignedSuffices(regions);
    FramesDistinctExactly(regions);
    var alloc := new BootInfoFrameAllocator(regions);
    assert alloc.Left() == UsableFrames(regions);
    machine := new Machine(alloc, pages, frames);
    r := machine.Load(b, mapper);
  }

  lemma RoundUpBounds(a: nat)
    ensures a <= RoundUp(a) < a + PAGE
  {
  }
}
