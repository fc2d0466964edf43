/**
 * The data-set store of the IEC 61850 mapper (src/IEC61850Mapper.cpp): every data set owns a slice of
 * one shared member array; removal closes the gap, shifts start indices and swaps in the last entry.
 */
module DataSetStore {
  import opened Common
  import ModArith

  datatype Member = Member(daMappingIndex: nat, fcDa: string)

  datatype DataSetDef = DataSetDef(name: string, ldInst: string, lnRef: string, isDynamic: bool,
                                   memberCount: nat, memberStartIndex: nat)
  {
    function End(): nat {
      memberStartIndex + memberCount
    }

    predicate Covers(x: nat) {
      memberStartIndex <= x < End()
    }
  }

  // ---------- Slices ----------

  ghost predicate Owned(defs: seq<DataSetDef>, x: nat) {
    exists j :: 0 <= j < |defs| && defs[j].Covers(x)
  }

  ghost predicate Disjoint(defs: seq<DataSetDef>) {
    forall i, j, x: nat :: 0 <= i < |defs| && 0 <= j < |defs| && defs[i].Covers(x) && defs[j].Covers(x) ==> i == j
  }

  /** The slices are disjoint and together make up exactly the first m members. */
  ghost predicate Tiled(defs: seq<DataSetDef>, m: nat) {
    && (forall j, x: nat :: 0 <= j < |defs| && defs[j].Covers(x) ==> x < m)
    && (forall x: nat :: x < m ==> Owned(defs, x))
    && Disjoint(defs)
  }

  /** The start index of entry j as removal of entry k leaves it: indices above k are lowered, in 32 bits. */
  function Shifted(defs: seq<DataSetDef>, k: nat, j: nat): DataSetDef
    requires k < |defs| && j < |defs|
  {
    if j > k then defs[j].(memberStartIndex := U32(defs[j].memberStartIndex - defs[k].memberCount)) else defs[j]
  }

  /** Which entry ends up at index i when entry k of n is removed. */
  function Origin(n: nat, k: nat, i: nat): nat
    requires i < n - 1 && k < n
  {
    if i == k then n - 1 else i
  }

  /** The entries after removeDataSet(k). */
  function Removed(defs: seq<DataSetDef>, k: nat): (r: seq<DataSetDef>)
    requires k < |defs|
    ensures |r| == |defs| - 1
  {
    seq(|defs| - 1, i requires 0 <= i < |defs| - 1 => Shifted(defs, k, Origin(|defs|, k, i)))
  }

  /** A slice lies inside the first m members; an empty slice lies anywhere. */
  predicate Inside(d: DataSetDef, m: nat) {
    d.memberCount > 0 ==> d.End() <= m
  }

  /** The member array with the gap closed. */
  function RemovedMembers(members: seq<Member>, d: DataSetDef): (left: seq<Member>)
    requires Inside(d, |members|)
    ensures |left| == |members| - d.memberCount
  {
    if d.memberCount == 0 then members else members[..d.memberStartIndex] + members[d.End()..]
  }

  lemma ClosedUp(was: seq<Member>, now: seq<Member>, d: DataSetDef)
    requires Inside(d, |was|) && |now| == |was|
    requires if d.memberCount == 0 then now == was
             else forall x :: 0 <= x < |was| - d.memberCount ==> now[x] == was[Back(d, x)]
    ensures now[..|was| - d.memberCount] == RemovedMembers(was, d)
  {
  }

  /** Exactly the non-empty slices behind slice k in the member array have an index above k. */
  ghost predicate OrderedAt(defs: seq<DataSetDef>, k: nat)
    requires k < |defs|
  {
    defs[k].memberCount == 0 ||
    forall j :: 0 <= j < |defs| && j != k && defs[j].memberCount > 0 ==>
      (j > k <==> defs[j].memberStartIndex >= defs[k].End())
  }

  lemma Bounds(defs: seq<DataSetDef>, m: nat, j: nat)
    requires Tiled(defs, m) && j < |defs|
    ensures Inside(defs[j], m) && defs[j].memberCount <= m
  {
    if defs[j].memberCount > 0 {
      assert defs[j].Covers(defs[j].End() - 1);
    }
  }

  /** Two non-empty slices of a tiling lie one before the other. */
  lemma Apart(defs: seq<DataSetDef>, m: nat, i: nat, j: nat)
    requires Tiled(defs, m) && i < |defs| && j < |defs| && i != j
    requires defs[i].memberCount > 0 && defs[j].memberCount > 0
    ensures defs[i].End() <= defs[j].memberStartIndex || defs[j].End() <= defs[i].memberStartIndex
  {
    var x := Max(defs[i].memberStartIndex, defs[j].memberStartIndex);
    assert defs[i].Covers(x) ==> !defs[j].Covers(x);
  }

  /** Position x of the closed-up member array was position Back(x) before. */
  function Back(d: DataSetDef, x: nat): nat {
    if x < d.memberStartIndex then x else x + d.memberCount
  }

  /** At an ordered entry, a slice behind the removed one moves down by its length and any other stays. */
  lemma ShiftedStart(defs: seq<DataSetDef>, m: nat, k: nat, j: nat)
    requires Tiled(defs, m) && m < UINT32_RANGE && k < |defs| && j < |defs| && j != k && OrderedAt(defs, k)
    requires defs[j].memberCount > 0
    ensures defs[j].End() <= m
    ensures var start, c := defs[j].memberStartIndex, defs[k].memberCount;
            if c > 0 && start >= defs[k].End() then Shifted(defs, k, j).memberStartIndex == start - c
            else Shifted(defs, k, j).memberStartIndex == start && (c == 0 || defs[j].End() <= defs[k].memberStartIndex)
  {
    Bounds(defs, m, j);
    if defs[k].memberCount > 0 {
      Apart(defs, m, j, k);
      if j > k {
        ModArith.Small(defs[j].memberStartIndex - defs[k].memberCount, UINT32_RANGE);
      }
    } else {
      ModArith.Small(defs[j].memberStartIndex, UINT32_RANGE);
    }
  }

  lemma ShiftFollowsMembers(defs: seq<DataSetDef>, m: nat, k: nat, j: nat, x: nat)
    requires Tiled(defs, m) && m < UINT32_RANGE && k < |defs| && j < |defs| && j != k && OrderedAt(defs, k)
    ensures Shifted(defs, k, j).Covers(x) <==> defs[j].Covers(Back(defs[k], x))
  {
    if defs[j].memberCount > 0 {
      ShiftedStart(defs, m, k, j);
    }
  }

  /** At an ordered entry, removal keeps the tiling. */
  lemma RemovalKeepsTiling(defs: seq<DataSetDef>, m: nat, k: nat)
    requires Tiled(defs, m) && m < UINT32_RANGE && k < |defs| && OrderedAt(defs, k)
    ensures defs[k].memberCount <= m && Tiled(Removed(defs, k), m - defs[k].memberCount)
  {
    Bounds(defs, m, k);
    var n, c, r := |defs|, defs[k].memberCount, Removed(defs, k);
    forall i, x: nat | 0 <= i < |r|
      ensures r[i].Covers(x) <==> defs[Origin(n, k, i)].Covers(Back(defs[k], x))
    {
      ShiftFollowsMembers(defs, m, k, Origin(n, k, i), x);
    }
    forall j, x: nat | 0 <= j < |r| && r[j].Covers(x) ensures x < m - c {
      assert defs[Origin(n, k, j)].Covers(Back(defs[k], x));
      if c > 0 {
        Bounds(defs, m, k);
      }
    }
    forall i, j, x: nat | 0 <= i < |r| && 0 <= j < |r| && r[i].Covers(x) && r[j].Covers(x) ensures i == j {
      assert defs[Origin(n, k, i)].Covers(Back(defs[k], x)) && defs[Origin(n, k, j)].Covers(Back(defs[k], x));
    }
    forall x: nat | x < m - c ensures Owned(r, x) {
      var y := Back(defs[k], x);
      assert Owned(defs, y);
      var o :| 0 <= o < n && defs[o].Covers(y);
      assert o != k;
      var i := if o == n - 1 then k else o;
      assert Origin(n, k, i) == o && r[i].Covers(x);
    }
  }

  /** Where entry j goes when entry k of n is removed. */
  function Target(n: nat, k: nat, j: nat): (i: nat)
    requires j < n && k < n && j != k
    ensures i < n - 1 && Origin(n, k, i) == j
  {
    if j == n - 1 then k else j
  }

  /**
   * A slice behind slice k with a smaller index breaks the tiling: its start index is not lowered, so it
   * overlaps the slice that closes up behind it, or leaves the array.
   */
  lemma {:induction false} BehindAndBelowBreaks(defs: seq<DataSetDef>, m: nat, k: nat, j: nat)
    requires Tiled(defs, m) && m < UINT32_RANGE && k < |defs| && 0 < defs[k].memberCount <= m
    requires j < k && defs[j].memberCount > 0 && defs[j].memberStartIndex >= defs[k].End()
    ensures !Tiled(Removed(defs, k), m - defs[k].memberCount)
    decreases m - defs[j].memberStartIndex
  {
    Bounds(defs, m, j);
    var n, c, r, p := |defs|, defs[k].memberCount, Removed(defs, k), defs[j].End() - 1;
    assert r[j].Covers(p);
    if p < m - c {
      assert Owned(defs, p + c);
      var q :| 0 <= q < n && defs[q].Covers(p + c);
      Apart(defs, m, q, j);
      Bounds(defs, m, q);
      if q < k {
        BehindAndBelowBreaks(defs, m, k, q);
      } else {
        ModArith.Small(defs[q].memberStartIndex - c, UINT32_RANGE);
        assert r[Target(n, k, q)].Covers(p);
      }
    }
  }

  /** A slice before slice k with a larger index breaks it too: its start index is lowered wrongly. */
  lemma {:induction false} BeforeAndAboveBreaks(defs: seq<DataSetDef>, m: nat, k: nat, j: nat)
    requires Tiled(defs, m) && m < UINT32_RANGE && k < |defs| && 0 < defs[k].memberCount <= m
    requires k < j < |defs| && defs[j].memberCount > 0 && defs[j].memberStartIndex < defs[k].End()
    ensures !Tiled(Removed(defs, k), m - defs[k].memberCount)
    decreases defs[j].memberStartIndex
  {
    Bounds(defs, m, j);
    Apart(defs, m, j, k);
    var n, c, r, start := |defs|, defs[k].memberCount, Removed(defs, k), defs[j].memberStartIndex;
    var i := Target(n, k, j);
    if start < c {
      ModArith.Unique(start - c, -1, start - c + UINT32_RANGE, UINT32_RANGE);
      assert r[i].Covers(start - c + UINT32_RANGE);
    } else {
      var p := start - c;
      ModArith.Small(p, UINT32_RANGE);
      assert r[i].Covers(p);
      assert Owned(defs, p);
      var q :| 0 <= q < n && defs[q].Covers(p);
      if q > k {
        BeforeAndAboveBreaks(defs, m, k, q);
      } else {
        assert r[q].Covers(p);
      }
    }
  }

  /** From any tiling, removeDataSet(k) leaves a tiling if and only if the slices are ordered at k. */
  lemma RemovalKeepsTilingIffOrdered(defs: seq<DataSetDef>, m: nat, k: nat)
    requires Tiled(defs, m) && m < UINT32_RANGE && k < |defs|
    ensures defs[k].memberCount <= m
    ensures Tiled(Removed(defs, k), m - defs[k].memberCount) <==> OrderedAt(defs, k)
  {
    Bounds(defs, m, k);
    if OrderedAt(defs, k) {
      RemovalKeepsTiling(defs, m, k);
    } else {
      var j :| 0 <= j < |defs| && j != k && defs[j].memberCount > 0
               && !(j > k <==> defs[j].memberStartIndex >= defs[k].End());
      if j < k {
        BehindAndBelowBreaks(defs, m, k, j);
      } else {
        BeforeAndAboveBreaks(defs, m, k, j);
      }
    }
  }

  // ---------- Member lists ----------

  /** The member list getDataSet returns for an entry. */
  function ListOf(d: DataSetDef, members: seq<Member>): seq<Member>
    requires Inside(d, |members|)
  {
    if d.memberCount == 0 then [] else members[d.memberStartIndex..d.End()]
  }

  /** At an ordered entry every survivor keeps its member list, wherever the entry and the members move. */
  lemma RemovalKeepsLists(defs: seq<DataSetDef>, members: seq<Member>, k: nat, i: nat)
    requires Tiled(defs, |members|) && |members| < UINT32_RANGE && k < |defs| && OrderedAt(defs, k)
    requires i < |defs| - 1
    ensures Inside(defs[k], |members|)
    ensures var j, d, left := Origin(|defs|, k, i), Removed(defs, k)[i], RemovedMembers(members, defs[k]);
            && Inside(defs[j], |members|) && Inside(d, |left|)
            && ListOf(d, left) == ListOf(defs[j], members)
            && d.(memberStartIndex := 0) == defs[j].(memberStartIndex := 0)
  {
    var j, m := Origin(|defs|, k, i), |members|;
    Bounds(defs, m, k);
    Bounds(defs, m, j);
    if defs[j].memberCount > 0 {
      ShiftedStart(defs, m, k, j);
      SliceMoves(members, defs[k], defs[j]);
    }
  }

  lemma SliceMoves(members: seq<Member>, gone: DataSetDef, d: DataSetDef)
    requires Inside(gone, |members|) && d.End() <= |members|
    ensures var left, c := RemovedMembers(members, gone), gone.memberCount;
            && (c > 0 && d.memberStartIndex >= gone.End() ==>
                  left[d.memberStartIndex - c..d.End() - c] == members[d.memberStartIndex..d.End()])
            && (d.End() <= gone.memberStartIndex || c == 0 ==>
                  d.End() <= |left| && left[d.memberStartIndex..d.End()] == members[d.memberStartIndex..d.End()])
  {
  }

  /**
   * Where the survivors are, said entry by entry: the last one is at k and every other one at its old
   * index, each with its old identity, and all after k with a start index lowered in 32 bits.
   */
  lemma SurvivorsAfterRemoval(defs: seq<DataSetDef>, k: nat)
    requires k < |defs|
    ensures var r, n, c := Removed(defs, k), |defs|, defs[k].memberCount;
            && |r| == n - 1
            && (forall i :: 0 <= i < k && i < n - 1 ==> r[i] == defs[i])
            && (k < n - 1 ==> r[k] == defs[n - 1].(memberStartIndex := (defs[n - 1].memberStartIndex - c) % UINT32_RANGE))
            && (forall i :: k < i < n - 1 ==> r[i] == defs[i].(memberStartIndex := (defs[i].memberStartIndex - c) % UINT32_RANGE))
  {
  }

  /** At an ordered entry: the last data set is found at k, every other survivor at its old index, with its old members. */
  lemma ListsAfterRemoval(defs: seq<DataSetDef>, members: seq<Member>, k: nat)
    requires Tiled(defs, |members|) && |members| < UINT32_RANGE && k < |defs| && OrderedAt(defs, k)
    ensures Inside(defs[k], |members|)
    ensures var r, left, n := Removed(defs, k), RemovedMembers(members, defs[k]), |defs|;
            && (forall i :: 0 <= i < n - 1 && i != k ==>
                  Inside(r[i], |left|) && Inside(defs[i], |members|) && ListOf(r[i], left) == ListOf(defs[i], members))
            && (k < n - 1 ==>
                  Inside(r[k], |left|) && Inside(defs[n - 1], |members|) && ListOf(r[k], left) == ListOf(defs[n - 1], members))
  {
    Bounds(defs, |members|, k);
    forall i | 0 <= i < |defs| - 1
      ensures var j := if i == k then |defs| - 1 else i;
              && Inside(Removed(defs, k)[i], |RemovedMembers(members, defs[k])|) && Inside(defs[j], |members|)
              && ListOf(Removed(defs, k)[i], RemovedMembers(members, defs[k])) == ListOf(defs[j], members)
    {
      RemovalKeepsLists(defs, members, k, i);
    }
  }

  /** What a member list is: as many members as the entry counts, from its start index on. */
  lemma ListOfMeans(d: DataSetDef, members: seq<Member>)
    requires Inside(d, |members|)
    ensures |ListOf(d, members)| == d.memberCount
    ensures forall i :: 0 <= i < d.memberCount ==> ListOf(d, members)[i] == members[d.memberStartIndex + i]
  {
  }

  // ---------- Creation and runs ----------

  function Created(defs: seq<DataSetDef>, m: nat, def: DataSetDef): seq<DataSetDef> {
    defs + [def.(memberStartIndex := m)]
  }

  lemma CreationKeepsTiling(defs: seq<DataSetDef>, m: nat, def: DataSetDef)
    requires Tiled(defs, m)
    ensures Tiled(Created(defs, m, def), m + def.memberCount)
  {
    var r := Created(defs, m, def);
    forall x: nat | x < m + def.memberCount ensures Owned(r, x) {
      if x < m {
        assert Owned(defs, x);
        var j :| 0 <= j < |defs| && defs[j].Covers(x);
        assert r[j].Covers(x);
      } else {
        assert r[|defs|].Covers(x);
      }
    }
    forall i, j, x: nat | 0 <= i < |r| && 0 <= j < |r| && r[i].Covers(x) && r[j].Covers(x) ensures i == j {
      assert i < |defs| ==> defs[i].Covers(x);
      assert j < |defs| ==> defs[j].Covers(x);
    }
  }

  /** Every slice begins where the slice of the entry before it ends. */
  ghost predicate Sequential(defs: seq<DataSetDef>, m: nat) {
    if defs == [] then m == 0
    else
      var last := defs[|defs| - 1];
      last.End() == m && Sequential(defs[..|defs| - 1], last.memberStartIndex)
  }

  lemma {:induction false} SequentialOrder(defs: seq<DataSetDef>, m: nat, i: nat, j: nat)
    requires Sequential(defs, m) && i < j < |defs|
    ensures defs[i].End() <= defs[j].memberStartIndex && defs[j].End() <= m
  {
    var n := |defs| - 1;
    if j < n {
      SequentialOrder(defs[..n], defs[n].memberStartIndex, i, j);
    } else if i < n - 1 {
      SequentialOrder(defs[..n], defs[n].memberStartIndex, i, n - 1);
    } else {
      assert defs[..n][n - 1] == defs[i];
    }
  }

  lemma {:induction false} SequentialTiled(defs: seq<DataSetDef>, m: nat)
    requires Sequential(defs, m)
    ensures Tiled(defs, m)
  {
    if defs == [] {
    } else {
      var n := |defs| - 1;
      SequentialTiled(defs[..n], defs[n].memberStartIndex);
      CreationKeepsTiling(defs[..n], defs[n].memberStartIndex, defs[n]);
      assert Created(defs[..n], defs[n].memberStartIndex, defs[n]) == defs;
    }
  }

  lemma CreationKeepsSequence(defs: seq<DataSetDef>, m: nat, def: DataSetDef)
    requires Sequential(defs, m)
    ensures Sequential(Created(defs, m, def), m + def.memberCount)
  {
    var r := Created(defs, m, def);
    assert r[..|r| - 1] == defs;
  }

  /** In sequential order every removal is safe, and removing the last data set keeps the order. */
  lemma SequentialIsSafe(defs: seq<DataSetDef>, m: nat)
    requires Sequential(defs, m)
    ensures forall k :: 0 <= k < |defs| ==> OrderedAt(defs, k)
    ensures var n := |defs| - 1; n >= 0 ==> Sequential(Removed(defs, n), m - defs[n].memberCount)
  {
    forall k | 0 <= k < |defs| ensures OrderedAt(defs, k) {
      forall j | 0 <= j < |defs| && j != k && defs[j].memberCount > 0
        ensures j > k <==> defs[j].memberStartIndex >= defs[k].End()
      {
        if j < k {
          SequentialOrder(defs, m, j, k);
        } else {
          SequentialOrder(defs, m, k, j);
        }
      }
    }
    if defs != [] {
      assert Removed(defs, |defs| - 1) == defs[..|defs| - 1];
    }
  }

  /**
   * Removing the first of three data sets twice breaks the store: the first removal is safe but brings the
   * last entry to the front, and the second lowers the start index of the other one below zero.
   */
  lemma TwoRemovalsBreak(a: DataSetDef, b: DataSetDef, c: DataSetDef)
    requires a.memberCount == b.memberCount == c.memberCount == 1
    ensures var defs := Created(Created(Created([], 0, a), 1, b), 2, c);
            var once := Removed(defs, 0);
            && Sequential(defs, 3) && Tiled(once, 2) && !OrderedAt(once, 0)
            && Removed(once, 0)[0].memberStartIndex == UINT32_RANGE - 1 && !Tiled(Removed(once, 0), 1)
  {
    ThreeCreated(a, b, c);
    var defs := [a.(memberStartIndex := 0), b.(memberStartIndex := 1), c.(memberStartIndex := 2)];
    var once := Removed(defs, 0);
    ModArith.Small(0, UINT32_RANGE);
    ModArith.Small(1, UINT32_RANGE);
    assert once[0] == c.(memberStartIndex := 1) && once[1] == b.(memberStartIndex := 0);
    assert once == [once[0], once[1]];
    SecondRemovalBreaks(once[0], once[1]);
  }

  lemma ThreeCreated(a: DataSetDef, b: DataSetDef, c: DataSetDef)
    requires a.memberCount == b.memberCount == c.memberCount == 1
    ensures var defs := Created(Created(Created([], 0, a), 1, b), 2, c);
            && Sequential(defs, 3)
            && defs == [a.(memberStartIndex := 0), b.(memberStartIndex := 1), c.(memberStartIndex := 2)]
  {
    var none: seq<DataSetDef> := [];
    var one := Created(none, 0, a);
    var two := Created(one, 1, b);
    CreationKeepsSequence(none, 0, a);
    CreationKeepsSequence(one, 1, b);
    CreationKeepsSequence(two, 2, c);
  }

  lemma SecondRemovalBreaks(first: DataSetDef, second: DataSetDef)
    requires first.memberCount == second.memberCount == 1
    requires first.memberStartIndex == 1 && second.memberStartIndex == 0
    ensures var defs := [first, second];
            && Tiled(defs, 2) && !OrderedAt(defs, 0)
            && Removed(defs, 0)[0].memberStartIndex == UINT32_RANGE - 1 && !Tiled(Removed(defs, 0), 1)
  {
    var defs := [first, second];
    assert defs[1].Covers(0) && defs[0].Covers(1);
    assert Owned(defs, 0) && Owned(defs, 1);
    assert defs[1].memberCount > 0 && !(defs[1].memberStartIndex >= defs[0].End());
    RemovalKeepsTilingIffOrdered(defs, 2, 0);
  }

  // ---------- Runs ----------

  datatype Store = Store(defs: seq<DataSetDef>, members: seq<Member>)

  datatype Op = Create(def: DataSetDef, list: seq<Member>) | Remove(k: nat)

  /** The operation can be carried out, and a removal is ordered. */
  ghost predicate Safe(s: Store, op: Op) {
    match op
    case Create(def, list) => |list| == def.memberCount && |s.members| + |list| < UINT32_RANGE
    case Remove(k) => k < |s.defs| && OrderedAt(s.defs, k) && Inside(s.defs[k], |s.members|)
  }

  function Apply(s: Store, op: Op): Store
    requires op.Remove? ==> op.k < |s.defs| && Inside(s.defs[op.k], |s.members|)
  {
    match op
    case Create(def, list) => Store(Created(s.defs, |s.members|, def), s.members + list)
    case Remove(k) => Store(Removed(s.defs, k), RemovedMembers(s.members, s.defs[k]))
  }

  /** What clients see: the entries without their start indices, each with its own member list. */
  ghost function Entries(s: Store): seq<(DataSetDef, seq<Member>)>
    requires Tiled(s.defs, |s.members|)
  {
    seq(|s.defs|, i requires 0 <= i < |s.defs| =>
          (Bounds(s.defs, |s.members|, i); (s.defs[i].(memberStartIndex := 0), ListOf(s.defs[i], s.members))))
  }

  /** The same operation on a plain list of entries. */
  function OnEntries(e: seq<(DataSetDef, seq<Member>)>, op: Op): seq<(DataSetDef, seq<Member>)>
    requires op.Remove? ==> op.k < |e|
  {
    match op
    case Create(def, list) => e + [(def.(memberStartIndex := 0), list)]
    case Remove(k) => seq(|e| - 1, i requires 0 <= i < |e| - 1 => e[Origin(|e|, k, i)])
  }

  /** Removal from the plain list moves the last entry to k and leaves every other one where it is. */
  lemma PlainRemoval(e: seq<(DataSetDef, seq<Member>)>, k: nat)
    requires k < |e|
    ensures var r := OnEntries(e, Remove(k));
            && |r| == |e| - 1
            && (forall i :: 0 <= i < |e| - 1 && i != k ==> r[i] == e[i])
            && (k < |e| - 1 ==> r[k] == e[|e| - 1])
  {
  }

  /** A safe operation acts on the shared member array as on separate lists: it refines the plain store. */
  lemma SafeOpRefines(s: Store, op: Op)
    requires Tiled(s.defs, |s.members|) && |s.members| < UINT32_RANGE && Safe(s, op)
    ensures var s' := Apply(s, op);
            Tiled(s'.defs, |s'.members|) && |s'.members| < UINT32_RANGE && Entries(s') == OnEntries(Entries(s), op)
  {
    var s' := Apply(s, op);
    match op
    case Create(def, list) =>
      CreationKeepsTiling(s.defs, |s.members|, def);
      forall i | 0 <= i < |s'.defs| ensures Entries(s')[i] == OnEntries(Entries(s), op)[i] {
        if i < |s.defs| {
          Bounds(s.defs, |s.members|, i);
          var d := s.defs[i];
          if d.memberCount > 0 {
            assert s'.members[d.memberStartIndex..d.End()] == s.members[d.memberStartIndex..d.End()];
          }
        } else {
          assert s'.members[|s.members|..|s'.members|] == list;
        }
      }
    case Remove(k) =>
      RemovalKeepsTiling(s.defs, |s.members|, k);
      forall i | 0 <= i < |s'.defs| ensures Entries(s')[i] == OnEntries(Entries(s), op)[i] {
        RemovalKeepsLists(s.defs, s.members, k, i);
      }
  }

  ghost predicate SafeRun(s: Store, ops: seq<Op>)
    decreases |ops|
  {
    ops == [] || (Safe(s, ops[0]) && SafeRun(Apply(s, ops[0]), ops[1..]))
  }

  ghost function Run(s: Store, ops: seq<Op>): Store
    requires SafeRun(s, ops)
    decreases |ops|
  {
    if ops == [] then s else Run(Apply(s, ops[0]), ops[1..])
  }

  ghost function RunOnEntries(e: seq<(DataSetDef, seq<Member>)>, ops: seq<Op>): Option<seq<(DataSetDef, seq<Member>)>>
    decreases |ops|
  {
    if ops == [] then Some(e)
    else if ops[0].Remove? && ops[0].k >= |e| then None
    else RunOnEntries(OnEntries(e, ops[0]), ops[1..])
  }

  /** Over any safe run the store shows exactly what a plain list of entries would show. */
  lemma {:induction false} SafeRunRefines(s: Store, ops: seq<Op>)
    requires Tiled(s.defs, |s.members|) && |s.members| < UINT32_RANGE && SafeRun(s, ops)
    ensures var s' := Run(s, ops);
            Tiled(s'.defs, |s'.members|) && RunOnEntries(Entries(s), ops) == Some(Entries(s'))
    decreases |ops|
  {
    if ops == [] {
    } else {
      SafeOpRefines(s, ops[0]);
      SafeRunRefines(Apply(s, ops[0]), ops[1..]);
    }
  }

  /** Runs of operations that never disturb the order: creating, and removing the last data set. */
  ghost predicate LastOnly(s: Store, ops: seq<Op>)
    decreases |ops|
  {
    ops == [] ||
    (match ops[0]
     case Create(def, list) =>
       |list| == def.memberCount && |s.members| + |list| < UINT32_RANGE && LastOnly(Apply(s, ops[0]), ops[1..])
     case Remove(k) =>
       k + 1 == |s.defs| && Inside(s.defs[k], |s.members|) && LastOnly(Apply(s, ops[0]), ops[1..]))
  }

  /** Such runs are always safe, and any one removal after them is. */
  lemma {:induction false} LastOnlyRunsAreSafe(s: Store, ops: seq<Op>)
    requires Sequential(s.defs, |s.members|) && |s.members| < UINT32_RANGE && LastOnly(s, ops)
    ensures SafeRun(s, ops) && Sequential(Run(s, ops).defs, |Run(s, ops).members|)
    ensures forall k :: 0 <= k < |Run(s, ops).defs| ==> OrderedAt(Run(s, ops).defs, k)
    decreases |ops|
  {
    SequentialIsSafe(s.defs, |s.members|);
    if ops == [] {
    } else {
      if ops[0].Create? {
        CreationKeepsSequence(s.defs, |s.members|, ops[0].def);
      }
      LastOnlyRunsAreSafe(Apply(s, ops[0]), ops[1..]);
    }
  }

  // ---------- The store in memory ----------

  /** Member counts are 16 bits wide, so a member array of this length keeps lowered indices apart from valid ones. */
  const MAX_MEMBERS: nat := UINT32_RANGE - UINT16_RANGE

  const UINT16_RANGE: nat := 0x1_0000

  /** The field widths of DataSetDef. */
  predicate Sized(d: DataSetDef) {
    d.memberCount < UINT16_RANGE && d.memberStartIndex < UINT32_RANGE
  }

  /** What a call does; OutOfArray is an access outside the member array, which the source does not guard against. */
  datatype Outcome = Refused | OutOfArray | Done(index: nat)

  /** Removing d from m members in an array of the given length goes outside the array. */
  predicate Overruns(d: DataSetDef, m: nat, length: nat) {
    U32(d.End()) < m && (length < m || UINT32_RANGE <= d.End())
  }

  lemma EndIndex(d: DataSetDef)
    requires Sized(d)
    ensures U32(d.End()) == if d.End() < UINT32_RANGE then d.End() else d.End() - UINT32_RANGE
  {
    if d.End() < UINT32_RANGE {
      ModArith.Small(d.End(), UINT32_RANGE);
    } else {
      ModArith.Unique(d.End(), 1, d.End() - UINT32_RANGE, UINT32_RANGE);
    }
  }

  /** An index at or behind the end of a slice is lowered exactly, unless the end has wrapped around. */
  lemma LoweredIndex(d: DataSetDef, i: nat)
    requires Sized(d) && i < UINT32_RANGE
    ensures d.memberCount <= i ==> U32(i - d.memberCount) == i - d.memberCount
    ensures i < d.memberCount ==> U32(i - d.memberCount) > MAX_MEMBERS
  {
    if d.memberCount <= i {
      ModArith.Small(i - d.memberCount, UINT32_RANGE);
    } else {
      ModArith.Unique(i - d.memberCount, -1, i - d.memberCount + UINT32_RANGE, UINT32_RANGE);
    }
  }

  /** Moving the member at index i down over the slice reads or writes outside the array. */
  predicate MovesOutside(d: DataSetDef, i: nat, length: nat) {
    i >= length || (i - d.memberCount) % UINT32_RANGE >= length
  }

  /** Overrunning means that the loop over the members behind the slice does so. */
  lemma OverrunsMeans(d: DataSetDef, m: nat, length: nat)
    requires Sized(d) && m < UINT32_RANGE && length <= MAX_MEMBERS
    ensures Overruns(d, m, length) <==>
              exists i :: (d.memberStartIndex + d.memberCount) % UINT32_RANGE <= i < m && MovesOutside(d, i, length)
  {
    EndIndex(d);
    var e := U32(d.End());
    if Overruns(d, m, length) {
      var i := if length < m then Max(e, length) else e;
      LoweredIndex(d, i);
      assert MovesOutside(d, i, length);
    } else {
      forall i: nat | e <= i < m ensures !MovesOutside(d, i, length) {
        LoweredIndex(d, i);
      }
    }
  }

  lemma InsideNeverOverruns(d: DataSetDef, m: nat, length: nat)
    requires Sized(d) && Inside(d, m) && m <= length <= MAX_MEMBERS
    ensures !Overruns(d, m, length)
  {
    if d.End() < UINT32_RANGE {
      ModArith.Small(d.End(), UINT32_RANGE);
    }
  }

  /** Slices of a tiling are all inside, so nothing overruns as long as the array has room for the members. */
  lemma TiledNeverOverruns(defs: seq<DataSetDef>, m: nat, length: nat, k: nat)
    requires Tiled(defs, m) && m <= length <= MAX_MEMBERS && k < |defs| && Sized(defs[k])
    ensures Inside(defs[k], m) && !Overruns(defs[k], m, length)
  {
    Bounds(defs, m, k);
    InsideNeverOverruns(defs[k], m, length);
  }

  class DataSetStore {
    const dataSets: array<DataSetDef>
    const members: array<Member>
    var mapped: bool
    var dataSetCount: nat
    var memberCount: nat

    ghost predicate Valid()
      reads this, dataSets
    {
      && dataSetCount <= dataSets.Length && memberCount < UINT32_RANGE && members.Length <= MAX_MEMBERS
      && forall i :: 0 <= i < dataSetCount ==> Sized(dataSets[i])
    }

    ghost function Defs(): seq<DataSetDef>
      reads this, dataSets
      requires Valid()
    {
      dataSets[..dataSetCount]
    }

    ghost function View(): Store
      reads this, dataSets, members
      requires Valid() && memberCount <= members.Length
    {
      Store(Defs(), members[..memberCount])
    }

    constructor (maxDataSets: nat, maxMembers: nat)
      requires maxMembers <= MAX_MEMBERS
      ensures Valid() && mapped && memberCount <= members.Length && View() == Store([], []) && fresh(dataSets) && fresh(members)
      ensures dataSets.Length == maxDataSets && members.Length == maxMembers
    {
      dataSets := new DataSetDef[maxDataSets](_ => DataSetDef("", "", "", false, 0, 0));
      members := new Member[maxMembers](_ => Member(0, ""));
      mapped, dataSetCount, memberCount := true, 0, 0;
    }

    /** The entry is counted before its members are copied, and nothing checks the member array for room. */
    method CreateDataSet(def: DataSetDef, list: array?<Member>) returns (outcome: Outcome)
      requires Valid() && list != members && Sized(def) && (list != null ==> def.memberCount <= list.Length)
      modifies this`dataSetCount, this`memberCount, dataSets, members
      ensures Valid()
      ensures outcome == if !mapped || list == null || old(dataSetCount) >= dataSets.Length then Refused
                         else if def.memberCount > 0 && old(memberCount) + def.memberCount > members.Length then OutOfArray
                         else Done(old(dataSetCount))
      ensures outcome.Refused? ==> unchanged(this) && unchanged(dataSets) && unchanged(members)
      ensures !outcome.Refused? ==> Defs() == Created(old(Defs()), old(memberCount), def)
      ensures outcome.Done? ==>
                && outcome.index == old(dataSetCount) == dataSetCount - 1
                && dataSets[outcome.index] == def.(memberStartIndex := old(memberCount))
                && forall i :: 0 <= i < old(dataSetCount) ==> dataSets[i] == old(dataSets[..])[i]
      ensures outcome.Done? ==> memberCount == old(memberCount) + def.memberCount
      ensures outcome.Done? && old(memberCount) <= members.Length ==>
                memberCount <= members.Length && View() == Apply(old(View()), Create(def, old(list[..def.memberCount])))
    {
      if !mapped || list == null {
        return Refused;
      }
      if dataSetCount >= dataSets.Length {
        return Refused;
      }
      var index := dataSetCount;
      dataSetCount := dataSetCount + 1;
      dataSets[index] := def.(memberStartIndex := memberCount);
      var within := CopyMembers(list, def.memberCount);
      if !within {
        return OutOfArray;
      }
      memberCount := memberCount + def.memberCount;
      return Done(index);
    }

    /** Copies n members behind those in use; false if that goes outside the member array. */
    method CopyMembers(list: array<Member>, n: nat) returns (within: bool)
      requires list != members && n <= list.Length && memberCount < UINT32_RANGE && members.Length < UINT32_RANGE
      modifies members
      ensures within <==> n == 0 || memberCount + n <= members.Length
      ensures within && memberCount <= members.Length ==>
                members[..memberCount + n] == old(members[..memberCount]) + list[..n]
    {
      for i := 0 to n
        invariant i > 0 ==> memberCount + i <= members.Length
        invariant memberCount + i <= members.Length ==>
                    members[..memberCount + i] == old(members[..memberCount]) + list[..i]
      {
        ModArith.Small(if i == 0 then memberCount else memberCount + i, UINT32_RANGE);
        var target := U32(memberCount + i);
        if target >= members.Length {
          return false;
        }
        members[target] := list[i];
      }
      return true;
    }

    method RemoveDataSet(index: nat) returns (outcome: Outcome)
      requires Valid()
      modifies this`dataSetCount, this`memberCount, dataSets, members
      ensures Valid()
      ensures outcome == if !mapped || index >= old(dataSetCount) then Refused
                         else if Overruns(old(dataSets[index]), old(memberCount), members.Length) then OutOfArray
                         else Done(index)
      ensures outcome.Refused? ==> unchanged(this) && unchanged(dataSets) && unchanged(members)
      ensures outcome.Done? ==>
                && Defs() == Removed(old(Defs()), index)
                && memberCount == U32(old(memberCount) - old(dataSets[index]).memberCount)
                && (!Inside(old(dataSets[index]), old(memberCount)) ==> members[..] == old(members[..]))
      ensures outcome.Done? ==>
                var was, c := old(Defs()), old(dataSets[index]).memberCount;
                && dataSetCount == |was| - 1
                && (forall i :: 0 <= i < index && i < dataSetCount ==> dataSets[i] == was[i])
                && (index < dataSetCount ==>
                      dataSets[index] == was[|was| - 1].(memberStartIndex := (was[|was| - 1].memberStartIndex - c) % UINT32_RANGE))
                && (forall i :: index < i < dataSetCount ==>
                      dataSets[i] == was[i].(memberStartIndex := (was[i].memberStartIndex - c) % UINT32_RANGE))
      ensures outcome.Done? && old(memberCount) <= members.Length && Inside(old(Defs())[index], old(memberCount)) ==>
                memberCount <= members.Length && View() == Apply(old(View()), Remove(index))
    {
      if !mapped || index >= dataSetCount {
        return Refused;
      }
      var within := CloseGap(dataSets[index]);
      if !within {
        return OutOfArray;
      }
      SurvivorsAfterRemoval(Defs(), index);
      RemoveEntry(index);
      assert forall i :: 0 <= i < dataSetCount ==> dataSets[i] == Defs()[i];
      return Done(index);
    }

    /** Lowers the start indices, puts the last entry in the place of the removed one and counts one less. */
    method RemoveEntry(index: nat)
      requires Valid() && index < dataSetCount
      modifies this`dataSetCount, dataSets
      ensures Valid() && Defs() == Removed(old(Defs()), index)
    {
      ghost var was := Defs();
      LowerStarts(index);
      if index < dataSetCount - 1 {
        dataSets[index] := dataSets[dataSetCount - 1];
      }
      dataSetCount := dataSetCount - 1;
      assert Defs() == Removed(was, index);
    }

    /** Moves the members behind a slice down over it; false if that goes outside the member array. */
    method CloseGap(d: DataSetDef) returns (within: bool)
      requires Valid() && Sized(d)
      modifies this`memberCount, members
      ensures Valid() && (within <==> !Overruns(d, old(memberCount), members.Length))
      ensures within ==> memberCount == U32(old(memberCount) - d.memberCount)
      ensures within && !Inside(d, old(memberCount)) ==> members[..] == old(members[..])
      ensures within && Inside(d, old(memberCount)) && old(memberCount) <= members.Length ==>
                && memberCount == old(memberCount) - d.memberCount
                && members[..memberCount] == RemovedMembers(old(members[..memberCount]), d)
    {
      ghost var m, was := memberCount, members[..];
      within := ShiftDown(d);
      if !within {
        return;
      }
      EndIndex(d);
      NothingMoved(was, members[..], d);
      if Inside(d, m) && m <= members.Length {
        ModArith.Small(m - d.memberCount, UINT32_RANGE);
        MovedIsClosedUp(was, members[..], d, m);
      }
      memberCount := U32(memberCount - d.memberCount);
    }

    /** The loop that moves the members. */
    method ShiftDown(d: DataSetDef) returns (within: bool)
      requires Sized(d) && memberCount < UINT32_RANGE && members.Length <= MAX_MEMBERS
      modifies members
      ensures within <==> !Overruns(d, memberCount, members.Length)
      ensures within ==> MovedUpTo(old(members[..]), members[..], d, Max(U32(d.End()), memberCount))
    {
      ghost var was := members[..];
      EndIndex(d);
      NothingMoved(was, was, d);
      var i := U32(d.End());
      while i < memberCount
        invariant U32(d.End()) <= i <= Max(U32(d.End()), memberCount)
        invariant i > U32(d.End()) ==> d.End() == U32(d.End()) && i <= members.Length
        invariant MovedUpTo(was, members[..], d, i)
      {
        LoweredIndex(d, i);
        var target := U32(i - d.memberCount);
        if i >= members.Length || target >= members.Length {
          return false;
        }
        ghost var now := members[..];
        members[target] := members[i];
        assert members[..] == now[target := now[i]];
        MoveNext(was, now, d, i);
        i := i + 1;
      }
      return true;
    }

    /** The members behind the slice, up to index i, have been moved down over it. */
    static ghost predicate MovedUpTo(was: seq<Member>, now: seq<Member>, d: DataSetDef, i: nat) {
      && |now| == |was|
      && forall x {:trigger now[x]} :: 0 <= x < |was| ==>
           now[x] == if d.memberStartIndex <= x && x + d.memberCount < i && i <= |was| then was[x + d.memberCount] else was[x]
    }

    /** At the start of the loop, and at its end if there was nothing behind the slice, all members are where they were. */
    static lemma NothingMoved(was: seq<Member>, now: seq<Member>, d: DataSetDef)
      requires Sized(d)
      ensures MovedUpTo(was, was, d, U32(d.End()))
      ensures MovedUpTo(was, now, d, U32(d.End())) ==> now == was
    {
      EndIndex(d);
    }

    static lemma MoveNext(was: seq<Member>, now: seq<Member>, d: DataSetDef, i: nat)
      requires MovedUpTo(was, now, d, i) && d.End() <= i < |was|
      ensures MovedUpTo(was, now[i - d.memberCount := now[i]], d, i + 1)
    {
    }

    static lemma MovedIsClosedUp(was: seq<Member>, now: seq<Member>, d: DataSetDef, m: nat)
      requires Inside(d, m) && m <= |was| && |now| == |was| && (d.memberCount == 0 ==> now == was)
      requires d.memberCount > 0 ==> MovedUpTo(was, now, d, m)
      ensures now[..m - d.memberCount] == RemovedMembers(was[..m], d)
    {
      ClosedUp(was[..m], now[..m], d);
    }

    /** Lowers the start index of every entry after the removed one. */
    method LowerStarts(index: nat)
      requires Valid() && index < dataSetCount
      modifies dataSets
      ensures Valid()
      ensures forall j :: 0 <= j < dataSetCount ==> dataSets[j] == Shifted(old(dataSets[..dataSetCount]), index, j)
    {
      ghost var was := dataSets[..dataSetCount];
      var count := dataSets[index].memberCount;
      for i := index + 1 to dataSetCount
        invariant Valid()
        invariant forall j :: 0 <= j < i ==> dataSets[j] == Shifted(was, index, j)
        invariant forall j :: i <= j < dataSetCount ==> dataSets[j] == was[j]
      {
        dataSets[i] := dataSets[i].(memberStartIndex := U32(dataSets[i].memberStartIndex - count));
      }
    }

    /** Reads the slice of the entry, whether its members are in use or not. */
    method GetDataSet(index: nat) returns (outcome: Outcome, def: Option<DataSetDef>, list: seq<Member>)
      requires Valid()
      ensures outcome == if !mapped || index >= dataSetCount then Refused
                         else if Inside(dataSets[index], members.Length) then Done(index) else OutOfArray
      ensures if outcome.Done? then def == Some(dataSets[index]) && list == ListOf(dataSets[index], members[..]) else def == None
      ensures outcome.Done? ==>
                && |list| == dataSets[index].memberCount
                && forall i :: 0 <= i < |list| ==>
                     dataSets[index].memberStartIndex + i < members.Length && list[i] == members[dataSets[index].memberStartIndex + i]
      ensures outcome.Done? && memberCount <= members.Length && Inside(dataSets[index], memberCount) ==>
                list == ListOf(dataSets[index], View().members)
    {
      if !mapped || index >= dataSetCount {
        return Refused, None, [];
      }
      var d := dataSets[index];
      list := [];
      for i := 0 to d.memberCount
        invariant i > 0 ==> d.memberStartIndex + i <= members.Length
        invariant list == if i == 0 then [] else members[d.memberStartIndex..d.memberStartIndex + i]
      {
        ModArith.Small(if i == 0 then d.memberStartIndex else d.memberStartIndex + i, UINT32_RANGE);
        var source := U32(d.memberStartIndex + i);
        if source >= members.Length {
          return OutOfArray, None, list;
        }
        list := list + [members[source]];
      }
      return Done(index), Some(d), list;
    }
  }
}
