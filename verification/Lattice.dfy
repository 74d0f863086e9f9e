/**
 The security lattice of kernel/src/lattice.rs: its verifier, join and meet, the addition of a
 new top level, and what the read and write checks guarantee over whole runs.
 */
module Lattice {
  import opened Bytes

  /** A label is a level's index. */
  type Label = n: nat | n < 256

  // ---------------------------------------------------------------------------------------
  // Values
  // ---------------------------------------------------------------------------------------

  /** `dom[a][b]` says that level `a` dominates level `b`; only the first `count` levels exist. */
  datatype Lat = Lat(dom: seq<seq<bool>>, count: nat, bottom: Label, top: Label) {

    predicate Shape() {
      && count <= |dom| <= 256
      && bottom < |dom| && top < |dom|
      && forall i :: 0 <= i < |dom| ==> |dom[i]| == |dom|
    }

    predicate Dominates(a: nat, b: nat)
      requires Shape()
    {
      if a >= count || b >= count then false else dom[a][b]
    }
  }

  predicate Reflexive(l: Lat)
    requires l.Shape()
  {
    forall a :: 0 <= a < l.count ==> l.Dominates(a, a)
  }

  predicate Antisymmetric(l: Lat)
    requires l.Shape()
  {
    forall a, b :: 0 <= a < l.count && 0 <= b < l.count && l.Dominates(a, b) && l.Dominates(b, a) ==> a == b
  }

  predicate Transitive(l: Lat)
    requires l.Shape()
  {
    forall a, b, c :: 0 <= a < l.count && 0 <= b < l.count && 0 <= c < l.count ==>
      l.Dominates(a, b) && l.Dominates(b, c) ==> l.Dominates(a, c)
  }

  predicate PartialOrder(l: Lat)
    requires l.Shape()
  {
    Reflexive(l) && Antisymmetric(l) && Transitive(l)
  }

  /** Bottom and top are levels, below and above all levels. */
  predicate Bounded(l: Lat)
    requires l.Shape()
  {
    && l.bottom < l.count && l.top < l.count
    && forall a :: 0 <= a < l.count ==> l.Dominates(a, l.bottom) && l.Dominates(l.top, a)
  }

  predicate UpperBound(l: Lat, u: nat, a: nat, b: nat)
    requires l.Shape()
  {
    l.Dominates(u, a) && l.Dominates(u, b)
  }

  predicate LowerBound(l: Lat, u: nat, a: nat, b: nat)
    requires l.Shape()
  {
    l.Dominates(a, u) && l.Dominates(b, u)
  }

  predicate LeastUpperBound(l: Lat, u: nat, a: nat, b: nat)
    requires l.Shape()
  {
    UpperBound(l, u, a, b) && forall v :: 0 <= v < l.count && UpperBound(l, v, a, b) ==> l.Dominates(v, u)
  }

  predicate GreatestLowerBound(l: Lat, u: nat, a: nat, b: nat)
    requires l.Shape()
  {
    LowerBound(l, u, a, b) && forall v :: 0 <= v < l.count && LowerBound(l, v, a, b) ==> l.Dominates(u, v)
  }

  /** The first level from `i` on that dominates both. */
  function JoinFrom(l: Lat, a: nat, b: nat, i: nat): (r: Option<nat>)
    requires l.Shape() && i <= l.count
    ensures r.Some? ==> i <= r.value < l.count && UpperBound(l, r.value, a, b)
    ensures forall v :: i <= v < l.count && UpperBound(l, v, a, b) ==> r.Some? && r.value <= v
    decreases l.count - i
  {
    if i == l.count then None else if UpperBound(l, i, a, b) then Some(i) else JoinFrom(l, a, b, i + 1)
  }

  function JoinOf(l: Lat, a: nat, b: nat): Option<nat>
    requires l.Shape()
  {
    JoinFrom(l, a, b, 0)
  }

  /** What the scan of the first `i` levels holds as its best common lower bound. */
  function MeetUpTo(l: Lat, a: nat, b: nat, i: nat): (r: Option<nat>)
    requires l.Shape() && i <= l.count
    ensures r.Some? ==> r.value < i && LowerBound(l, r.value, a, b)
  {
    if i == 0 then None
    else
      var best := MeetUpTo(l, a, b, i - 1);
      if !LowerBound(l, i - 1, a, b) then best
      else if best.Some? && !l.Dominates(i - 1, best.value) then best
      else Some(i - 1)
  }

  function MeetOf(l: Lat, a: nat, b: nat): Option<nat>
    requires l.Shape()
  {
    MeetUpTo(l, a, b, l.count)
  }

  // ---------------------------------------------------------------------------------------
  // Join and meet
  // ---------------------------------------------------------------------------------------

  /** Nothing the scan has seen lies strictly above its best. */
  lemma {:induction false} MeetMaximalUpTo(l: Lat, a: nat, b: nat, i: nat, v: nat)
    requires l.Shape() && PartialOrder(l) && i <= l.count && v < i && LowerBound(l, v, a, b)
    ensures MeetUpTo(l, a, b, i).Some?
    ensures l.Dominates(v, MeetUpTo(l, a, b, i).value) ==> v == MeetUpTo(l, a, b, i).value
    decreases i
  {
    if v < i - 1 {
      MeetMaximalUpTo(l, a, b, i - 1, v);
    }
  }

  /** On a partial order, `meet` finds a common lower bound with no other strictly above it. */
  lemma MeetMaximal(l: Lat, a: nat, b: nat, v: nat)
    requires l.Shape() && PartialOrder(l) && LowerBound(l, v, a, b)
    ensures MeetOf(l, a, b).Some? && LowerBound(l, MeetOf(l, a, b).value, a, b)
    ensures l.Dominates(v, MeetOf(l, a, b).value) ==> v == MeetOf(l, a, b).value
  {
    MeetMaximalUpTo(l, a, b, l.count, v);
  }

  /** So it is the greatest one, whenever there is a greatest one. */
  lemma MeetGreatest(l: Lat, a: nat, b: nat, g: nat)
    requires l.Shape() && PartialOrder(l) && GreatestLowerBound(l, g, a, b)
    ensures MeetOf(l, a, b) == Some(g)
  {
    MeetMaximal(l, a, b, g);
  }

  /** Higher levels never have smaller indices. */
  predicate IndexExtends(l: Lat)
    requires l.Shape()
  {
    forall a, b :: 0 <= a < l.count && 0 <= b < l.count && l.Dominates(a, b) ==> a >= b
  }

  /** `join` finds the least upper bound of every pair that has one. */
  predicate JoinLeast(l: Lat)
    requires l.Shape()
  {
    forall a, b, u :: 0 <= a < l.count && 0 <= b < l.count && 0 <= u < l.count && LeastUpperBound(l, u, a, b) ==>
      JoinOf(l, a, b) == Some(u)
  }

  /** `join` finds least upper bounds exactly when the order of the indices extends dominance. */
  lemma JoinLeastExactly(l: Lat)
    requires l.Shape() && PartialOrder(l)
    ensures JoinLeast(l) <==> IndexExtends(l)
  {
    if JoinLeast(l) {
      forall a, b | 0 <= a < l.count && 0 <= b < l.count && l.Dominates(a, b)
        ensures a >= b
      {
        assert LeastUpperBound(l, b, b, b);
        assert UpperBound(l, a, b, b);
      }
    }
    if IndexExtends(l) {
      forall a, b, u | 0 <= a < l.count && 0 <= b < l.count && 0 <= u < l.count && LeastUpperBound(l, u, a, b)
        ensures JoinOf(l, a, b) == Some(u)
      {
        var j := JoinOf(l, a, b);
        assert l.Dominates(j.value, u);
      }
    }
  }

  // ---------------------------------------------------------------------------------------
  // Verification
  // ---------------------------------------------------------------------------------------

  predicate BottomBelow(l: Lat)
    requires l.Shape()
  {
    forall i :: 0 <= i < l.count ==> l.dom[i][l.bottom]
  }

  predicate TopAbove(l: Lat)
    requires l.Shape()
  {
    forall i :: 0 <= i < l.count ==> l.dom[l.top][i]
  }

  predicate JoinsExist(l: Lat)
    requires l.Shape()
  {
    forall a, b :: 0 <= a < l.count && 0 <= b < l.count ==> JoinOf(l, a, b).Some?
  }

  predicate MeetsExist(l: Lat)
    requires l.Shape()
  {
    forall a, b :: 0 <= a < l.count && 0 <= b < l.count ==> MeetOf(l, a, b).Some?
  }

  /** The first check that fails, as the kernel reports it; empty if none does. */
  function Reason(l: Lat): string
    requires l.Shape()
  {
    if !Reflexive(l) then "reflexivity violated"
    else if !Antisymmetric(l) then "antisymmetry violated"
    else if !Transitive(l) then "transitivity violated"
    else if !BottomBelow(l) then "bottom bound violated"
    else if !TopAbove(l) then "top bound violated"
    else if !JoinsExist(l) then "join does not exist"
    else if !MeetsExist(l) then "meet does not exist"
    else ""
  }

  predicate Verified(l: Lat) { l.Shape() && l.bottom < l.count && l.top < l.count && Reason(l) == "" }

  /**
   With bottom and top among the levels, verification accepts exactly the bounded partial orders:
   the join and meet checks reject nothing that the first five let through.
   */
  lemma AcceptsBounded(l: Lat)
    requires l.Shape() && l.bottom < l.count && l.top < l.count
    ensures Reason(l) == "" <==> PartialOrder(l) && Bounded(l)
    ensures Reason(l) != "join does not exist" && Reason(l) != "meet does not exist"
  {
    if PartialOrder(l) && BottomBelow(l) && TopAbove(l) {
      forall a, b | 0 <= a < l.count && 0 <= b < l.count
        ensures JoinOf(l, a, b).Some? && MeetOf(l, a, b).Some?
      {
        assert UpperBound(l, l.top, a, b);
        assert LowerBound(l, l.bottom, a, b);
        MeetMaximal(l, a, b, l.bottom);
      }
      forall a | 0 <= a < l.count
        ensures l.Dominates(a, l.bottom) && l.Dominates(l.top, a)
      {
      }
    }
    if PartialOrder(l) && Bounded(l) {
      forall i | 0 <= i < l.count
        ensures l.dom[i][l.bottom] && l.dom[l.top][i]
      {
        assert l.Dominates(i, l.bottom) && l.Dominates(l.top, i);
      }
    }
  }

  predicate Greatest(l: Lat, u: nat)
    requires l.Shape()
  {
    u < l.count && forall a :: 0 <= a < l.count ==> l.Dominates(u, a)
  }

  predicate Least(l: Lat, u: nat)
    requires l.Shape()
  {
    u < l.count && forall a :: 0 <= a < l.count ==> l.Dominates(a, u)
  }

  /** If all pairs have upper bounds, one level is above the first `n`. */
  lemma {:induction false} AboveFirst(l: Lat, n: nat) returns (u: nat)
    requires l.Shape() && Reflexive(l) && Transitive(l) && JoinsExist(l) && 0 < n <= l.count
    ensures u < l.count && forall a :: 0 <= a < n ==> l.Dominates(u, a)
  {
    u := 0;
    if n > 1 {
      var v := AboveFirst(l, n - 1);
      u := JoinOf(l, v, n - 1).value;
      assert UpperBound(l, u, v, n - 1);
      forall a | 0 <= a < n - 1
        ensures l.Dominates(u, a)
      {
        assert l.Dominates(u, v) && l.Dominates(v, a);
      }
    }
    assert l.Dominates(0, 0);
  }

  lemma {:induction false} BelowFirst(l: Lat, n: nat) returns (u: nat)
    requires l.Shape() && Reflexive(l) && Transitive(l) && MeetsExist(l) && 0 < n <= l.count
    ensures u < l.count && forall a :: 0 <= a < n ==> l.Dominates(a, u)
  {
    u := 0;
    if n > 1 {
      var v := BelowFirst(l, n - 1);
      u := MeetOf(l, v, n - 1).value;
      assert LowerBound(l, u, v, n - 1);
      forall a | 0 <= a < n - 1
        ensures l.Dominates(a, u)
      {
        assert l.Dominates(a, v) && l.Dominates(v, u);
      }
    }
    assert l.Dominates(0, 0);
  }

  lemma BoundsGiveBoth(l: Lat, g: nat, u: nat)
    requires l.Shape() && PartialOrder(l) && Greatest(l, g) && Least(l, u)
    ensures JoinsExist(l) && MeetsExist(l)
  {
    forall a, b | 0 <= a < l.count && 0 <= b < l.count
      ensures JoinOf(l, a, b).Some? && MeetOf(l, a, b).Some?
    {
      assert UpperBound(l, g, a, b);
      assert LowerBound(l, u, a, b);
      MeetMaximal(l, a, b, u);
    }
  }

  /**
   Whatever indices bottom and top hold: verification accepts exactly the partial orders that pass
   the two bound checks and, if there are levels at all, have a greatest and a least one.
   */
  lemma AcceptsExactly(l: Lat)
    requires l.Shape()
    ensures Reason(l) == "" <==>
              && PartialOrder(l) && BottomBelow(l) && TopAbove(l)
              && (l.count == 0 || ((exists g: nat :: Greatest(l, g)) && exists u: nat :: Least(l, u)))
  {
    if Reason(l) == "" && l.count > 0 {
      var g := AboveFirst(l, l.count);
      var u := BelowFirst(l, l.count);
      assert Greatest(l, g) && Least(l, u);
    }
    if PartialOrder(l) && l.count > 0 && (exists g: nat :: Greatest(l, g)) && exists u: nat :: Least(l, u) {
      var g: nat :| Greatest(l, g);
      var u: nat :| Least(l, u);
      BoundsGiveBoth(l, g, u);
    }
  }

  /** Bottom 0, top 5, and 3 and 4 both above both 1 and 2. */
  function Crown(): Lat
  {
    Lat([[true, false, false, false, false, false, false, false],
         [true, true, false, false, false, false, false, false],
         [true, false, true, false, false, false, false, false],
         [true, true, true, true, false, false, false, false],
         [true, true, true, false, true, false, false, false],
         [true, true, true, true, true, true, false, false],
         [false, false, false, false, false, false, false, false],
         [false, false, false, false, false, false, false, false]], 6, 0, 5)
  }

  lemma CrownOrder()
    ensures Crown().Shape() && PartialOrder(Crown()) && Bounded(Crown())
  {
  }

  /** A bounded partial order need not be a lattice: levels 1 and 2 here have upper bounds but no least one. */
  lemma AcceptsNonLattice()
    ensures Verified(Crown()) && JoinOf(Crown(), 1, 2) == Some(3)
    ensures forall u :: 0 <= u < 6 ==> !LeastUpperBound(Crown(), u, 1, 2)
  {
    var l := Crown();
    CrownOrder();
    AcceptsBounded(l);
    assert UpperBound(l, 3, 1, 2) && UpperBound(l, 4, 1, 2);
    assert !l.Dominates(3, 4) && !l.Dominates(4, 3);
  }

  // ---------------------------------------------------------------------------------------
  // A new top level
  // ---------------------------------------------------------------------------------------

  /** One level more, above all the others. */
  predicate NewTop(l: Lat, m: Lat)
    requires l.Shape() && m.Shape()
  {
    && |m.dom| == |l.dom| && m.count == l.count + 1 && m.bottom == l.bottom && m.top == l.count
    && (forall i, j :: 0 <= i < l.count && 0 <= j < l.count ==> m.dom[i][j] == l.dom[i][j])
    && (forall j :: 0 <= j <= l.count ==> m.dom[l.count][j])
    && (forall i :: 0 <= i < l.count ==> !m.dom[i][l.count])
  }

  lemma NewTopKeepsDominance(l: Lat, m: Lat, a: nat, b: nat)
    requires l.Shape() && m.Shape() && NewTop(l, m) && a < l.count && b < l.count
    ensures m.Dominates(a, b) == l.Dominates(a, b)
  {
  }

  lemma NewTopKeepsIndex(l: Lat, m: Lat)
    requires l.Shape() && m.Shape() && NewTop(l, m)
    ensures IndexExtends(l) ==> IndexExtends(m)
  {
    forall a, b | IndexExtends(l) && 0 <= a < m.count && 0 <= b < m.count && m.Dominates(a, b)
      ensures a >= b
    {
      if a < l.count && b < l.count {
        NewTopKeepsDominance(l, m, a, b);
      }
    }
  }

  lemma {:induction false} NewTopKeepsMeetUpTo(l: Lat, m: Lat, a: nat, b: nat, i: nat)
    requires l.Shape() && m.Shape() && NewTop(l, m) && a < l.count && b < l.count && i <= l.count
    ensures MeetUpTo(m, a, b, i) == MeetUpTo(l, a, b, i)
  {
    if i > 0 {
      NewTopKeepsMeetUpTo(l, m, a, b, i - 1);
    }
  }

  /** Verification still accepts, and no answer about an old pair of levels changes. */
  lemma NewTopKeeps(l: Lat, m: Lat, a: nat, b: nat)
    requires Verified(l) && m.Shape() && NewTop(l, m)
    ensures Verified(m)
    ensures a < l.count && b < l.count ==>
              && m.Dominates(a, b) == l.Dominates(a, b)
              && JoinOf(m, a, b) == JoinOf(l, a, b) && MeetOf(m, a, b) == MeetOf(l, a, b)
  {
    AcceptsBounded(l);
    NewTopOrder(l, m);
    AcceptsBounded(m);
    if a < l.count && b < l.count {
      NewTopKeepsMeetUpTo(l, m, a, b, l.count);
      var j := JoinOf(l, a, b);
      assert UpperBound(l, l.top, a, b);
      assert UpperBound(m, j.value, a, b);
      assert forall v :: 0 <= v < l.count ==> UpperBound(m, v, a, b) == UpperBound(l, v, a, b);
    }
  }

  lemma NewTopOrder(l: Lat, m: Lat)
    requires l.Shape() && m.Shape() && PartialOrder(l) && Bounded(l) && NewTop(l, m)
    ensures PartialOrder(m) && Bounded(m)
  {
    var n := l.count;
    assert forall a, b :: 0 <= a < n && 0 <= b < n ==> m.Dominates(a, b) == l.Dominates(a, b);
    assert forall a :: 0 <= a < n ==> m.Dominates(n, a) && !m.Dominates(a, n);
  }

  // ---------------------------------------------------------------------------------------
  // The kernel's form
  // ---------------------------------------------------------------------------------------

  class SecurityLattice {
    const dom: array2<bool>
    var count: nat
    var bottom: Label
    var top: Label

    ghost predicate Valid()
      reads this
    {
      count <= dom.Length0 == dom.Length1 <= 256 && bottom < dom.Length0 && top < dom.Length0
    }

    ghost function Row(i: nat): (r: seq<bool>)
      requires i < dom.Length0
      reads dom
      ensures |r| == dom.Length1
    {
      seq(dom.Length1, j requires 0 <= j < dom.Length1 reads dom => dom[i, j])
    }

    ghost function Value(): (l: Lat)
      requires Valid()
      reads this, dom
      ensures l.Shape()
    {
      Lat(seq(dom.Length0, i requires 0 <= i < dom.Length0 reads dom => Row(i)), count, bottom, top)
    }

    /** The four levels Unclassified, Confidential, Secret and TopSecret in a chain. */
    constructor DefaultBlp()
      ensures Valid() && dom.Length0 == 8 && fresh(dom)
      ensures Verified(Value()) && IndexExtends(Value()) && count == 4
      ensures forall a, b :: 0 <= a < 4 && 0 <= b < 4 ==> Value().Dominates(a, b) == (a >= b)
    {
      dom := new bool[8, 8]((i, j) => false);
      count, bottom, top := 4, 0, 3;
      new;
      for i := 0 to 4
        invariant forall a, b :: 0 <= a < i && 0 <= b < 4 ==> dom[a, b] == (a >= b)
        modifies dom
      {
        for j := 0 to 4
          invariant forall a, b :: 0 <= a < i && 0 <= b < 4 ==> dom[a, b] == (a >= b)
          invariant forall b :: 0 <= b < j ==> dom[i, b] == (i >= b)
          modifies dom
        {
          dom[i, j] := i >= j;
        }
      }
      ghost var l := Value();
      assert forall a, b :: 0 <= a < 4 && 0 <= b < 4 ==> l.Dominates(a, b) == (a >= b);
      AcceptsBounded(l);
    }

    method Dominates(a: Label, b: Label) returns (r: bool)
      requires Valid()
      ensures r == Value().Dominates(a, b)
    {
      if a >= count || b >= count {
        return false;
      }
      r := dom[a, b];
    }

    method Join(a: Label, b: Label) returns (r: Option<nat>)
      requires Valid()
      ensures r == JoinOf(Value(), a, b)
    {
      ghost var l := Value();
      for i := 0 to count
        invariant JoinOf(l, a, b) == JoinFrom(l, a, b, i)
      {
        var da := Dominates(i, a);
        var db := Dominates(i, b);
        if da && db {
          return Some(i);
        }
      }
      r := None;
    }

    method Meet(a: Label, b: Label) returns (best: Option<nat>)
      requires Valid()
      ensures best == MeetOf(Value(), a, b)
    {
      ghost var l := Value();
      best := None;
      for i := 0 to count
        invariant best == MeetUpTo(l, a, b, i)
      {
        var da := Dominates(a, i);
        var db := Dominates(b, i);
        if da && db {
          if best.None? {
            best := Some(i);
          } else {
            var above := Dominates(i, best.value);
            if above {
              best := Some(i);
            }
          }
        }
      }
    }

    method CheckReflexive() returns (ok: bool)
      requires Valid()
      ensures ok <==> Reflexive(Value())
    {
      ghost var l := Value();
      for i := 0 to count
        invariant forall a :: 0 <= a < i ==> l.Dominates(a, a)
      {
        if !dom[i, i] {
          assert !l.Dominates(i, i);
          return false;
        }
        assert l.Dominates(i, i);
      }
      ok := true;
    }

    method CheckAntisymmetric() returns (ok: bool)
      requires Valid()
      ensures ok <==> Antisymmetric(Value())
    {
      ghost var l := Value();
      for i := 0 to count
        invariant forall a, b :: 0 <= a < i && 0 <= b < count && l.Dominates(a, b) && l.Dominates(b, a) ==> a == b
      {
        for j := 0 to count
          invariant forall b :: 0 <= b < j && l.Dominates(i, b) && l.Dominates(b, i) ==> i == b
        {
          assert l.Dominates(i, j) == dom[i, j] && l.Dominates(j, i) == dom[j, i];
          if i != j && dom[i, j] && dom[j, i] {
            return false;
          }
        }
      }
      ok := true;
    }

    method CheckTransitive() returns (ok: bool)
      requires Valid()
      ensures ok <==> Transitive(Value())
    {
      ghost var l := Value();
      for i := 0 to count
        invariant forall a, b, c :: 0 <= a < i && 0 <= b < count && 0 <= c < count ==>
                    l.Dominates(a, b) && l.Dominates(b, c) ==> l.Dominates(a, c)
      {
        for j := 0 to count
          invariant forall b, c :: 0 <= b < j && 0 <= c < count ==>
                      l.Dominates(i, b) && l.Dominates(b, c) ==> l.Dominates(i, c)
        {
          for k := 0 to count
            invariant forall c :: 0 <= c < k ==> l.Dominates(i, j) && l.Dominates(j, c) ==> l.Dominates(i, c)
          {
            assert l.Dominates(i, j) == dom[i, j] && l.Dominates(j, k) == dom[j, k] && l.Dominates(i, k) == dom[i, k];
            if dom[i, j] && dom[j, k] && !dom[i, k] {
              return false;
            }
          }
        }
      }
      ok := true;
    }

    method CheckBounds() returns (bottomOk: bool, topOk: bool)
      requires Valid()
      ensures bottomOk <==> BottomBelow(Value())
      ensures bottomOk ==> (topOk <==> TopAbove(Value()))
    {
      ghost var l := Value();
      topOk := false;
      for i := 0 to count
        invariant forall a :: 0 <= a < i ==> l.dom[a][bottom]
      {
        assert l.dom[i][bottom] == dom[i, bottom];
        if !dom[i, bottom] {
          return false, false;
        }
      }
      bottomOk := true;
      for i := 0 to count
        invariant forall a :: 0 <= a < i ==> l.dom[top][a]
      {
        assert l.dom[top][i] == dom[top, i];
        if !dom[top, i] {
          return true, false;
        }
      }
      topOk := true;
    }

    method CheckJoins() returns (ok: bool)
      requires Valid()
      ensures ok <==> JoinsExist(Value())
    {
      ghost var l := Value();
      for i := 0 to count
        invariant forall a, b :: 0 <= a < i && 0 <= b < count ==> JoinOf(l, a, b).Some?
      {
        for j := 0 to count
          invariant forall b :: 0 <= b < j ==> JoinOf(l, i, b).Some?
        {
          var r := Join(i, j);
          if r.None? {
            return false;
          }
        }
      }
      ok := true;
    }

    method CheckMeets() returns (ok: bool)
      requires Valid()
      ensures ok <==> MeetsExist(Value())
    {
      ghost var l := Value();
      for i := 0 to count
        invariant forall a, b :: 0 <= a < i && 0 <= b < count ==> MeetOf(l, a, b).Some?
      {
        for j := 0 to count
          invariant forall b :: 0 <= b < j ==> MeetOf(l, i, b).Some?
        {
          var r := Meet(i, j);
          if r.None? {
            return false;
          }
        }
      }
      ok := true;
    }

    /** The seven checks in order; the first that fails gives the reason. */
    method Verify() returns (ok: bool, why: string)
      requires Valid()
      ensures why == Reason(Value())
      ensures ok <==> why == ""
    {
      var good := CheckReflexive();
      if !good { return false, "reflexivity violated"; }
      good := CheckAntisymmetric();
      if !good { return false, "antisymmetry violated"; }
      good := CheckTransitive();
      if !good { return false, "transitivity violated"; }
      var bottomOk, topOk := CheckBounds();
      if !bottomOk { return false, "bottom bound violated"; }
      if !topOk { return false, "top bound violated"; }
      good := CheckJoins();
      if !good { return false, "join does not exist"; }
      good := CheckMeets();
      if !good { return false, "meet does not exist"; }
      return true, "";
    }

    /** The reconfiguration: one more level, above all the others. */
    method AddTop()
      requires Valid() && count < dom.Length0
      modifies this`count, this`top, dom
      ensures Valid() && NewTop(old(Value()), Value())
      ensures old(Verified(Value())) ==> Verified(Value())
      ensures old(IndexExtends(Value())) ==> IndexExtends(Value())
    {
      ghost var l := Value();
      RaiseTop();
      if Verified(l) {
        NewTopKeeps(l, Value(), 0, 0);
      }
      NewTopKeepsIndex(l, Value());
    }

    /** Fill the new row, clear the new column. */
    method RaiseTop()
      requires Valid() && count < dom.Length0
      modifies this`count, this`top, dom
      ensures Valid() && NewTop(old(Value()), Value())
    {
      ghost var l := Value();
      var n := count;
      count := n + 1;
      top := n;
      for j := 0 to n + 1
        invariant forall b :: 0 <= b < j ==> dom[n, b]
        invariant forall a, b :: 0 <= a < n && 0 <= b < n ==> dom[a, b] == l.dom[a][b]
        modifies dom
      {
        dom[n, j] := true;
      }
      for i := 0 to n
        invariant forall b :: 0 <= b <= n ==> dom[n, b]
        invariant forall a, b :: 0 <= a < n && 0 <= b < n ==> dom[a, b] == l.dom[a][b]
        invariant forall a :: 0 <= a < i ==> !dom[a, n]
        modifies dom
      {
        dom[i, n] := false;
      }
    }
  }

  // ---------------------------------------------------------------------------------------
  // Information flow over whole runs
  // ---------------------------------------------------------------------------------------

  predicate MayRead(l: Lat, subject: Label, obj: Label)
    requires l.Shape()
  {
    l.Dominates(subject, obj)
  }

  predicate MayWrite(l: Lat, subject: Label, obj: Label)
    requires l.Shape()
  {
    l.Dominates(obj, subject)
  }

  /** A subject or an object: its label, and the labels of everything whose information has reached it. */
  datatype Entity = Entity(level: Label, reached: set<Label>)

  datatype System = System(lat: Lat, subjects: seq<Entity>, objects: seq<Entity>)

  datatype Action =
    | Read(s: nat, o: nat)
    | Write(s: nat, o: nat)
    | NewSubject(level: Label)
    | NewObject(level: Label)
    | Reconfigure(to: Lat)

  /** What the kernel lets happen; a refused request changes nothing. */
  predicate Step(x: System, act: Action, y: System)
    requires x.lat.Shape()
  {
    match act
    case Read(s, o) =>
      if s < |x.subjects| && o < |x.objects| && MayRead(x.lat, x.subjects[s].level, x.objects[o].level)
      then y == x.(subjects := x.subjects[s := Absorb(x.subjects[s], x.objects[o])])
      else y == x
    case Write(s, o) =>
      if s < |x.subjects| && o < |x.objects| && MayWrite(x.lat, x.subjects[s].level, x.objects[o].level)
      then y == x.(objects := x.objects[o := Absorb(x.objects[o], x.subjects[s])])
      else y == x
    case NewSubject(level) =>
      if level < x.lat.count then y == x.(subjects := x.subjects + [Entity(level, {level})]) else y == x
    case NewObject(level) =>
      if level < x.lat.count then y == x.(objects := x.objects + [Entity(level, {level})]) else y == x
    case Reconfigure(to) =>
      if to.Shape() && NewTop(x.lat, to) then y == x.(lat := to) else y == x
  }

  function Absorb(to: Entity, from: Entity): Entity { to.(reached := to.reached + from.reached) }

  /** Whatever reached an entity came from levels its own level dominates. */
  predicate Confined(l: Lat, e: Entity)
    requires l.Shape()
  {
    forall x :: x in e.reached ==> l.Dominates(e.level, x)
  }

  predicate Secure(x: System)
  {
    && Verified(x.lat)
    && (forall i :: 0 <= i < |x.subjects| ==> Confined(x.lat, x.subjects[i]))
    && (forall i :: 0 <= i < |x.objects| ==> Confined(x.lat, x.objects[i]))
  }

  lemma AbsorbConfined(l: Lat, to: Entity, from: Entity)
    requires Verified(l) && Confined(l, to) && Confined(l, from) && l.Dominates(to.level, from.level)
    ensures Confined(l, Absorb(to, from))
  {
    AcceptsBounded(l);
    forall x | x in from.reached
      ensures l.Dominates(to.level, x)
    {
      assert l.Dominates(from.level, x);
    }
  }

  lemma StepSecure(x: System, act: Action, y: System)
    requires Secure(x) && Step(x, act, y)
    ensures Secure(y)
  {
    match act
    case Read(s, o) =>
      if s < |x.subjects| && o < |x.objects| && MayRead(x.lat, x.subjects[s].level, x.objects[o].level) {
        AbsorbConfined(x.lat, x.subjects[s], x.objects[o]);
      }
    case Write(s, o) =>
      if s < |x.subjects| && o < |x.objects| && MayWrite(x.lat, x.subjects[s].level, x.objects[o].level) {
        AbsorbConfined(x.lat, x.objects[o], x.subjects[s]);
      }
    case NewSubject(level) =>
      AcceptsBounded(x.lat);
    case NewObject(level) =>
      AcceptsBounded(x.lat);
    case Reconfigure(to) =>
      if to.Shape() && NewTop(x.lat, to) {
        NewTopKeeps(x.lat, to, 0, 0);
        forall e: Entity | Confined(x.lat, e)
          ensures Confined(to, e)
        {
          StillConfined(x.lat, to, e);
        }
      }
  }

  lemma StillConfined(l: Lat, m: Lat, e: Entity)
    requires l.Shape() && m.Shape() && NewTop(l, m) && Confined(l, e)
    ensures Confined(m, e)
  {
    forall x | x in e.reached
      ensures m.Dominates(e.level, x)
    {
      assert l.Dominates(e.level, x);
      NewTopKeepsDominance(l, m, e.level, x);
    }
  }

  /** A run: each state follows from the one before by the action between them. */
  predicate IsRun(states: seq<System>, acts: seq<Action>)
  {
    && |states| == |acts| + 1
    && forall i, j :: 0 <= i < |acts| && i < j < |states| && j == i + 1 ==>
         states[i].lat.Shape() && Step(states[i], acts[i], states[j])
  }

  /**
   No run of reads, writes, creations and reconfigurations, permitted or refused, ever lets
   information reach an entity from a level its own level does not dominate.
   */
  lemma {:induction false} RunSecure(states: seq<System>, acts: seq<Action>, k: nat)
    requires IsRun(states, acts) && Secure(states[0]) && k < |states|
    ensures Secure(states[k])
  {
    if k > 0 {
      RunSecure(states, acts, k - 1);
      StepSecure(states[k - 1], acts[k - 1], states[k]);
    }
  }

  /** However often the lattice is reconfigured, two levels it started with stay as they were. */
  lemma {:induction false} RunKeepsDominance(states: seq<System>, acts: seq<Action>, k: nat, a: Label, b: Label)
    requires IsRun(states, acts) && Verified(states[0].lat) && k < |states|
    requires a < states[0].lat.count && b < states[0].lat.count
    ensures Verified(states[k].lat) && states[0].lat.count <= states[k].lat.count
    ensures states[k].lat.Dominates(a, b) == states[0].lat.Dominates(a, b)
  {
    if k > 0 {
      RunKeepsDominance(states, acts, k - 1, a, b);
      StepKeepsDominance(states[k - 1], acts[k - 1], states[k], a, b);
    }
  }

  lemma StepKeepsDominance(x: System, act: Action, y: System, a: Label, b: Label)
    requires Verified(x.lat) && Step(x, act, y) && a < x.lat.count && b < x.lat.count
    ensures Verified(y.lat) && x.lat.count <= y.lat.count && y.lat.Dominates(a, b) == x.lat.Dominates(a, b)
  {
    if act.Reconfigure? && act.to.Shape() && NewTop(x.lat, act.to) {
      NewTopKeeps(x.lat, act.to, a, b);
    }
  }

  /** Information of level `a` has reached something of level `b`. */
  predicate Reached(x: System, a: Label, b: Label)
  {
    || (exists i :: 0 <= i < |x.subjects| && x.subjects[i].level == b && a in x.subjects[i].reached)
    || (exists i :: 0 <= i < |x.objects| && x.objects[i].level == b && a in x.objects[i].reached)
  }

  /** A run without any write, or without any read. */
  datatype Means = ByReads | ByWrites

  predicate Only(m: Means, acts: seq<Action>)
  {
    forall i :: 0 <= i < |acts| ==> if m.ByReads? then !acts[i].Write? else !acts[i].Read?
  }

  /** Some run of that kind that starts with nothing ends with information of level `a` at level `b`. */
  ghost predicate CanReach(l: Lat, a: Label, b: Label, m: Means)
  {
    exists states, acts ::
      IsRun(states, acts) && Only(m, acts) && states[0] == System(l, [], []) && Reached(states[|acts|], a, b)
  }

  /**
   By reads alone, and by writes alone, the flows that can ever happen between two levels are exactly
   the ones the order allows.
   */
  lemma FlowsExactly(l: Lat, a: Label, b: Label, m: Means)
    requires Verified(l) && a < l.count && b < l.count
    ensures CanReach(l, a, b, m) <==> l.Dominates(b, a)
  {
    if CanReach(l, a, b, m) {
      var states, acts :|
        IsRun(states, acts) && Only(m, acts) && states[0] == System(l, [], []) && Reached(states[|acts|], a, b);
      RunSecure(states, acts, |acts|);
      RunKeepsDominance(states, acts, |acts|, b, a);
    }
    if l.Dominates(b, a) {
      match m
      case ByReads => ReadDown(l, a, b);
      case ByWrites => WriteUp(l, a, b);
    }
  }

  lemma ReadDown(l: Lat, a: Label, b: Label)
    requires Verified(l) && l.Dominates(b, a)
    ensures CanReach(l, a, b, ByReads)
  {
    var e, f := Entity(b, {b}), Entity(a, {a});
    var states := [System(l, [], []), System(l, [e], []), System(l, [e], [f]), System(l, [Absorb(e, f)], [f])];
    var acts := [NewSubject(b), NewObject(a), Read(0, 0)];
    assert states[2].subjects[0 := Absorb(e, f)] == states[3].subjects;
    ThreeSteps(states, acts);
    assert states[3].subjects[0].level == b && a in states[3].subjects[0].reached;
    assert Reached(states[|acts|], a, b) && Only(ByReads, acts);
  }

  lemma WriteUp(l: Lat, a: Label, b: Label)
    requires Verified(l) && l.Dominates(b, a)
    ensures CanReach(l, a, b, ByWrites)
  {
    var e, f := Entity(a, {a}), Entity(b, {b});
    var states := [System(l, [], []), System(l, [e], []), System(l, [e], [f]), System(l, [e], [Absorb(f, e)])];
    var acts := [NewSubject(a), NewObject(b), Write(0, 0)];
    assert states[2].objects[0 := Absorb(f, e)] == states[3].objects;
    ThreeSteps(states, acts);
    assert states[3].objects[0].level == b && a in states[3].objects[0].reached;
    assert Reached(states[|acts|], a, b) && Only(ByWrites, acts);
  }

  lemma ThreeSteps(states: seq<System>, acts: seq<Action>)
    requires |states| == 4 && |acts| == 3
    requires states[0].lat.Shape() && Step(states[0], acts[0], states[1])
    requires states[1].lat.Shape() && Step(states[1], acts[1], states[2])
    requires states[2].lat.Shape() && Step(states[2], acts[2], states[3])
    ensures IsRun(states, acts)
  {
  }
}
