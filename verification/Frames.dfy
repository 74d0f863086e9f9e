/**
 The boot frame allocator of kernel/src/memory.rs, which hands out the frames of the usable
 regions of the boot loader's memory map one after another.
 */
module Frames {
  import opened Bytes

  const PAGE: nat := 4096

  datatype Region = Region(start: nat, end: nat, usable: bool)

  /** The frame that contains an address. */
  function Containing(a: nat): nat { a - a % PAGE }

  /** The frames of the addresses `a`, `a + 4096`, ... below `end`. */
  function Steps(a: nat, end: nat): (fs: seq<nat>)
    decreases end - a
  {
    if a >= end then [] else [Containing(a)] + Steps(a + PAGE, end)
  }

  function UsableFrames(rs: seq<Region>): seq<nat>
  {
    if rs == [] then []
    else (if rs[0].usable then Steps(rs[0].start, rs[0].end) else []) + UsableFrames(rs[1..])
  }

  // ---------------------------------------------------------------------------------------
  // When no frame is handed out twice
  // ---------------------------------------------------------------------------------------

  /** How many frames a region yields. */
  function Count(a: nat, end: nat): nat { if a >= end then 0 else (end - a + PAGE - 1) / PAGE }

  /** Whether a region yields this frame. */
  predicate Yields(r: Region, f: nat)
  {
    r.usable && f % PAGE == 0 && Containing(r.start) <= f < Containing(r.start) + PAGE * Count(r.start, r.end)
  }

  lemma StepContaining(a: nat)
    ensures Containing(a + PAGE) == Containing(a) + PAGE && Containing(a) % PAGE == 0
  {
  }

  lemma CountStep(a: nat, end: nat)
    requires a < end
    ensures Count(a, end) == 1 + Count(a + PAGE, end)
  {
  }

  lemma {:induction false} StepsAre(a: nat, end: nat)
    ensures |Steps(a, end)| == Count(a, end)
    ensures forall i :: 0 <= i < |Steps(a, end)| ==> Steps(a, end)[i] == Containing(a) + PAGE * i
    decreases end - a
  {
    if a < end {
      StepsAre(a + PAGE, end);
      StepContaining(a);
      CountStep(a, end);
    }
  }

  /** The regions that yield frames yield different ones. */
  predicate RangesDisjoint(rs: seq<Region>)
  {
    forall i, j :: 0 <= i < |rs| && i < j < |rs| ==> RangeDisjoint(rs[i], rs[j])
  }

  predicate RangeDisjoint(r: Region, s: Region)
  {
    !r.usable || !s.usable || Count(r.start, r.end) == 0 || Count(s.start, s.end) == 0 ||
    Containing(r.start) + PAGE * Count(r.start, r.end) <= Containing(s.start) ||
    Containing(s.start) + PAGE * Count(s.start, s.end) <= Containing(r.start)
  }

  lemma StepsMember(r: Region, f: nat)
    requires r.usable
    ensures f in Steps(r.start, r.end) <==> Yields(r, f)
  {
    var fs, base := Steps(r.start, r.end), Containing(r.start);
    StepsAre(r.start, r.end);
    StepContaining(r.start);
    if Yields(r, f) {
      var i := (f - base) / PAGE;
      assert f == base + PAGE * i;
      assert fs[i] == f;
    }
    if f in fs {
      var i :| 0 <= i < |fs| && fs[i] == f;
      assert f == base + PAGE * i;
      assert f % PAGE == 0;
    }
  }

  lemma {:induction false} UsableMember(rs: seq<Region>, f: nat)
    ensures f in UsableFrames(rs) <==> exists i :: 0 <= i < |rs| && Yields(rs[i], f)
  {
    if rs != [] {
      UsableMember(rs[1..], f);
      if rs[0].usable {
        StepsMember(rs[0], f);
      }
      if f in UsableFrames(rs[1..]) {
        var i :| 0 <= i < |rs[1..]| && Yields(rs[1..][i], f);
        assert Yields(rs[i + 1], f);
      }
      if i :| 0 < i < |rs| && Yields(rs[i], f) {
        assert Yields(rs[1..][i - 1], f);
      }
    }
  }

  /** Two regions overlap exactly when they yield a common frame, and then the later of the two first frames is one. */
  lemma Overlap(r: Region, s: Region, f: nat)
    ensures Yields(r, f) && Yields(s, f) ==> !RangeDisjoint(r, s)
    ensures !RangeDisjoint(r, s) ==>
              var g := if Containing(r.start) < Containing(s.start) then Containing(s.start) else Containing(r.start);
              Yields(r, g) && Yields(s, g)
  {
    StepContaining(r.start);
    StepContaining(s.start);
  }

  lemma DistinctConcat(a: seq<nat>, b: seq<nat>)
    ensures Distinct(a + b) <==> Distinct(a) && Distinct(b) && forall x :: x in a ==> x !in b
  {
    var c := a + b;
    if Distinct(c) {
      forall i, j | 0 <= i < |b| && i < j < |b|
        ensures b[i] != b[j]
      {
        assert c[|a| + i] != c[|a| + j];
      }
      forall i, j | 0 <= i < |a| && i < j < |a|
        ensures a[i] != a[j]
      {
        assert c[i] != c[j];
      }
      forall x | x in a
        ensures x !in b
      {
        var i :| 0 <= i < |a| && a[i] == x;
        forall j | 0 <= j < |b|
          ensures b[j] != x
        {
          assert c[i] != c[|a| + j];
        }
      }
    }
    if Distinct(a) && Distinct(b) && forall x :: x in a ==> x !in b {
      forall i, j | 0 <= i < |c| && i < j < |c|
        ensures c[i] != c[j]
      {
        if i < |a| <= j {
          assert a[i] in a && b[j - |a|] in b;
        }
      }
    }
  }

  /** No frame is handed out twice exactly when the regions' frame ranges do not overlap. */
  lemma {:induction false} FramesDistinctExactly(rs: seq<Region>)
    ensures Distinct(UsableFrames(rs)) <==> RangesDisjoint(rs)
  {
    if rs != [] {
      var r, rest := rs[0], rs[1..];
      var a, b := if r.usable then Steps(r.start, r.end) else [], UsableFrames(rest);
      FramesDistinctExactly(rest);
      StepsAre(r.start, r.end);
      DistinctConcat(a, b);
      SplitFirst(rs);
      FirstApart(r, rest);
    }
  }

  lemma SplitFirst(rs: seq<Region>)
    requires rs != []
    ensures RangesDisjoint(rs) <==>
              RangesDisjoint(rs[1..]) && forall j :: 0 <= j < |rs[1..]| ==> RangeDisjoint(rs[0], rs[1..][j])
  {
    var rest := rs[1..];
    assert forall j :: 0 <= j < |rest| ==> rest[j] == rs[j + 1];
    if RangesDisjoint(rest) && forall j :: 0 <= j < |rest| ==> RangeDisjoint(rs[0], rest[j]) {
      forall i, j | 0 <= i < |rs| && i < j < |rs|
        ensures RangeDisjoint(rs[i], rs[j])
      {
        assert rs[j] == rest[j - 1];
        if i > 0 {
          assert rs[i] == rest[i - 1];
        }
      }
    }
  }

  /** The first region shares no frame with the others exactly when its range overlaps none of theirs. */
  lemma FirstApart(r: Region, rest: seq<Region>)
    ensures var a := if r.usable then Steps(r.start, r.end) else [];
            (forall x :: x in a ==> x !in UsableFrames(rest)) <==>
            forall j :: 0 <= j < |rest| ==> RangeDisjoint(r, rest[j])
  {
    var a := if r.usable then Steps(r.start, r.end) else [];
    if forall j :: 0 <= j < |rest| ==> RangeDisjoint(r, rest[j]) {
      forall x | x in a
        ensures x !in UsableFrames(rest)
      {
        StepsMember(r, x);
        UsableMember(rest, x);
        if x in UsableFrames(rest) {
          var j :| 0 <= j < |rest| && Yields(rest[j], x);
          Overlap(r, rest[j], x);
        }
      }
    }
    if forall x :: x in a ==> x !in UsableFrames(rest) {
      forall j | 0 <= j < |rest|
        ensures RangeDisjoint(r, rest[j])
      {
        var f, f' := Containing(r.start), Containing(rest[j].start);
        var g := if f < f' then f' else f;
        Overlap(r, rest[j], g);
        UsableMember(rest, g);
        if r.usable {
          StepsMember(r, g);
        }
      }
    }
  }

  /** Page-aligned starts and disjoint address ranges are enough, wherever the regions end. */
  lemma AlignedSuffices(rs: seq<Region>)
    requires forall i :: 0 <= i < |rs| ==> rs[i].start % PAGE == 0
    requires forall i, j :: 0 <= i < |rs| && i < j < |rs| ==> rs[i].end <= rs[j].start || rs[j].end <= rs[i].start
    ensures RangesDisjoint(rs)
  {
    forall i, j | 0 <= i < |rs| && i < j < |rs|
      ensures RangeDisjoint(rs[i], rs[j])
    {
      if rs[i].end <= rs[j].start {
        RoundsUp(rs[i].start, rs[i].end, rs[j].start);
      } else {
        RoundsUp(rs[j].start, rs[j].end, rs[i].start);
      }
    }
  }

  lemma RoundsUp(a: nat, end: nat, b: nat)
    requires a % PAGE == 0 && b % PAGE == 0 && end <= b
    ensures Count(a, end) > 0 ==> Containing(a) + PAGE * Count(a, end) <= Containing(b)
  {
  }

  // ---------------------------------------------------------------------------------------
  // The allocator
  // ---------------------------------------------------------------------------------------

  class BootInfoFrameAllocator {
    const regions: seq<Region>
    var next: nat

    constructor (regions: seq<Region>)
      ensures this.regions == regions && next == 0
    {
      this.regions, this.next := regions, 0;
    }

    /** The frames still to be handed out. */
    ghost function Left(): (fs: seq<nat>)
      reads this
    {
      if next <= |UsableFrames(regions)| then UsableFrames(regions)[next..] else []
    }

    method AllocateFrame() returns (frame: Option<nat>)
      modifies this
      ensures old(Left()) == [] ==> frame == None && Left() == []
      ensures old(Left()) != [] ==> frame == Some(old(Left())[0]) && Left() == old(Left())[1..]
    {
      var fs := UsableFrames(regions);
      frame := if next < |fs| then Some(fs[next]) else None;
      next := next + 1;
    }
  }
}
