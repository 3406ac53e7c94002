/** The timetable problem (`ProblemEDT`): groups of pupils, professors and
    weekly slots. A solution has one row per group and one cell per slot; a
    cell holds 0 for a free period or the number (from 1) of the professor
    teaching that group in that slot. */
module Edt {
  import opened Outcomes
  import opened Seqs
  import opened Swaps
  import opened Tables

  /** Why the constructor refuses its arguments (both are `ValueError`s). */
  datatype ConfigError = NotCompatible | NotEnoughSlots

  /** A constructed instance: the six arguments and the professor allocation,
      one row of `nbProfPerGroup` professors per group. */
  datatype Timetable = Timetable(
    nbSlots: nat,
    nbProfs: nat,
    nbGroups: nat,
    nbGroupPerProf: nat,
    nbProfPerGroup: nat,
    nbCoursePerProf: nat,
    allocation: seq<seq<nat>>)

  /** The professors, each repeated once per group they follow:
      `[1]*perProf + [2]*perProf + ... + [profs]*perProf`. */
  function ToBeAffected(profs: nat, perProf: nat): (t: seq<nat>)
    ensures |t| == profs * perProf
  {
    if profs == 0 then [] else ToBeAffected(profs - 1, perProf) + Repeat(perProf, profs)
  }

  /** Every professor appears `perProf` times, and nothing else appears. */
  lemma {:induction false} ToBeAffectedCounts(profs: nat, perProf: nat)
    ensures forall p: nat :: multiset(ToBeAffected(profs, perProf))[p] == if 1 <= p <= profs then perProf else 0
  {
    if profs > 0 {
      var block: seq<nat> := Repeat(perProf, profs);
      ToBeAffectedCounts(profs - 1, perProf);
      assert multiset(ToBeAffected(profs, perProf)) == multiset(ToBeAffected(profs - 1, perProf)) + multiset(block);
      forall p: nat
        ensures multiset(block)[p] == if p == profs then perProf else 0
      {
        RepeatCount(perProf, profs, p);
      }
    }
  }

  lemma {:induction false} ToBeAffectedRange(profs: nat, perProf: nat)
    ensures forall k :: 0 <= k < |ToBeAffected(profs, perProf)| ==> 1 <= ToBeAffected(profs, perProf)[k] <= profs
  {
    if profs > 0 {
      ToBeAffectedRange(profs - 1, perProf);
    }
  }

  lemma {:induction false} RepeatCount<T>(n: nat, x: T, y: T)
    ensures multiset(Repeat(n, x))[y] == if x == y then n else 0
  {
    if n > 0 {
      assert Repeat(n, x) == Repeat(n - 1, x) + [x];
      RepeatCount(n - 1, x, y);
    }
  }

  /** Cell `(g, i)` of the allocation reads `ii + i * nb_groups` of the flat
      list; for `g < groups` and `i < width` that index stays below
      `groups * width`. */
  lemma AllocateIndexInBounds(g: nat, i: nat, groups: nat, width: nat)
    requires g < groups && i < width
    ensures g + i * groups < groups * width
  {
    assert (i + 1) * groups <= width * groups by {
      MulMonotone(i + 1, width, groups);
    }
  }

  lemma MulMonotone(a: nat, b: nat, c: nat)
    requires a <= b
    ensures a * c <= b * c
  {
  }

  /** `ProblemEDT.allocate`: row `g` takes the flat list's entries
      `g, g + groups, g + 2 * groups, ...`, so the flat list is dealt column
      by column. The indices stay in range whenever the flat list is at
      least `groups * perGroup` long. */
  function Allocate(profs: nat, groups: nat, perProf: nat, perGroup: nat): (a: seq<seq<nat>>)
    requires groups * perGroup <= profs * perProf
    ensures |a| == groups
    ensures forall g :: 0 <= g < groups ==> |a[g]| == perGroup
  {
    var t: seq<nat> := ToBeAffected(profs, perProf);
    seq(groups, g requires 0 <= g < groups =>
      seq(perGroup, i requires 0 <= i < perGroup =>
        AllocateIndexInBounds(g, i, groups, perGroup); t[g + i * groups]))
  }

  /** Column `c` of the allocation is the `c`-th block of `groups` entries
      of the flat list. */
  lemma ColumnIsBlock(profs: nat, groups: nat, perProf: nat, perGroup: nat, c: nat)
    requires groups * perGroup <= profs * perProf && c < perGroup
    ensures c * groups + groups <= |ToBeAffected(profs, perProf)|
    ensures Column<nat>(Allocate(profs, groups, perProf, perGroup), c)
         == ToBeAffected(profs, perProf)[c * groups..c * groups + groups]
  {
    var a := Allocate(profs, groups, perProf, perGroup);
    var t: seq<nat> := ToBeAffected(profs, perProf);
    var lo := c * groups;
    assert lo + groups <= |t| by {
      MulSucc(c, groups);
      MulMonotone(c + 1, perGroup, groups);
      assert perGroup * groups == groups * perGroup;
    }
    var block := t[lo..lo + groups];
    forall g | 0 <= g < groups
      ensures Column<nat>(a, c)[g] == block[g]
    {
      assert a[g][c] == t[g + lo];
    }
  }

  lemma MulSucc(a: nat, b: nat)
    ensures (a + 1) * b == a * b + b
  {
  }

  /** The first `c` columns of the allocation, laid end to end, are the
      first `c * groups` entries of the flat list. */
  lemma {:induction false} ColumnsPrefix(profs: nat, groups: nat, perProf: nat, perGroup: nat, c: nat)
    requires groups * perGroup <= profs * perProf && c <= perGroup
    ensures c * groups <= |ToBeAffected(profs, perProf)|
    ensures Flatten<nat>(Columns<nat>(Allocate(profs, groups, perProf, perGroup), c))
         == ToBeAffected(profs, perProf)[..c * groups]
  {
    var a := Allocate(profs, groups, perProf, perGroup);
    var t: seq<nat> := ToBeAffected(profs, perProf);
    MulMonotone(c, perGroup, groups);
    if c > 0 {
      var lo := (c - 1) * groups;
      MulSucc(c - 1, groups);
      ColumnsPrefix(profs, groups, perProf, perGroup, c - 1);
      ColumnIsBlock(profs, groups, perProf, perGroup, c - 1);
      var front, last := Columns<nat>(a, c - 1), Column<nat>(a, c - 1);
      assert Flatten<nat>(Columns<nat>(a, c)) == Flatten<nat>(front) + last by {
        assert Columns<nat>(a, c) == front + [last];
        FlattenSnoc(front, last);
      }
      assert t[..lo + groups] == t[..lo] + t[lo..lo + groups];
    }
  }

  /** Under the compatibility equation the columns of the allocation, laid
      end to end, give back the whole flat list. */
  lemma AllocateColumns(profs: nat, groups: nat, perProf: nat, perGroup: nat)
    requires groups * perGroup == profs * perProf
    ensures Flatten<nat>(Columns<nat>(Allocate(profs, groups, perProf, perGroup), perGroup)) == ToBeAffected(profs, perProf)
  {
    var t: seq<nat> := ToBeAffected(profs, perProf);
    ColumnsPrefix(profs, groups, perProf, perGroup, perGroup);
    assert t[..perGroup * groups] == t;
  }

  /** Under the compatibility equation the allocation is a rearrangement of
      the flat list: every professor sits in exactly `perProf` cells. */
  lemma AllocateCounts(profs: nat, groups: nat, perProf: nat, perGroup: nat)
    requires profs * perProf == groups * perGroup
    ensures forall p: nat :: multiset(Flatten<nat>(Allocate(profs, groups, perProf, perGroup)))[p] == if 1 <= p <= profs then perProf else 0
  {
    AllocateSameCells(profs, groups, perProf, perGroup);
    ToBeAffectedCounts(profs, perProf);
  }

  lemma AllocateSameCells(profs: nat, groups: nat, perProf: nat, perGroup: nat)
    requires profs * perProf == groups * perGroup
    ensures multiset(Flatten<nat>(Allocate(profs, groups, perProf, perGroup))) == multiset(ToBeAffected(profs, perProf))
  {
    AllocateColumns(profs, groups, perProf, perGroup);
    RowsColumnsSameCells(Allocate(profs, groups, perProf, perGroup), perGroup);
  }

  /** Every cell of the allocation holds a professor numbered `1 .. profs`. */
  lemma AllocateRange(profs: nat, groups: nat, perProf: nat, perGroup: nat)
    requires groups * perGroup <= profs * perProf
    ensures forall g, i :: 0 <= g < groups && 0 <= i < perGroup ==> 1 <= Allocate(profs, groups, perProf, perGroup)[g][i] <= profs
  {
    var a := Allocate(profs, groups, perProf, perGroup);
    var t: seq<nat> := ToBeAffected(profs, perProf);
    ToBeAffectedRange(profs, perProf);
    forall g, i | 0 <= g < groups && 0 <= i < perGroup
      ensures 1 <= a[g][i] <= profs
    {
      var k := g + i * groups;
      AllocateIndexInBounds(g, i, groups, perGroup);
      assert a[g][i] == t[k];
    }
  }

  /** What every constructed instance satisfies. */
  ghost predicate Valid(inst: Timetable)
  {
    && inst.nbProfs * inst.nbGroupPerProf == inst.nbGroups * inst.nbProfPerGroup
    && inst.nbCoursePerProf * inst.nbProfPerGroup <= inst.nbSlots
    && inst.allocation == Allocate(inst.nbProfs, inst.nbGroups, inst.nbGroupPerProf, inst.nbProfPerGroup)
  }

  /** `ProblemEDT.__init__`: the compatibility check first, then the
      allocation, then the slot check. */
  function New(slots: nat, profs: nat, groups: nat, perProf: nat, perGroup: nat, coursesPerProf: nat): (r: Result<Timetable, ConfigError>)
    ensures r == Failure(NotCompatible) <==> profs * perProf != groups * perGroup
    ensures r == Failure(NotEnoughSlots) <==> profs * perProf == groups * perGroup && slots < coursesPerProf * perGroup
    ensures r.Success? ==> Valid(r.value)
    ensures r.Success? ==>
              && r.value.nbSlots == slots && r.value.nbProfs == profs && r.value.nbGroups == groups
              && r.value.nbGroupPerProf == perProf && r.value.nbProfPerGroup == perGroup
              && r.value.nbCoursePerProf == coursesPerProf
  {
    if profs * perProf != groups * perGroup then Failure(NotCompatible)
    else
      var allocation := Allocate(profs, groups, perProf, perGroup);
      if slots - coursesPerProf * perGroup < 0 then Failure(NotEnoughSlots)
      else Success(Timetable(slots, profs, groups, perProf, perGroup, coursesPerProf, allocation))
  }

  /** What `nb_collisions` reads without an `IndexError`: with at least one
      slot, the first `nbGroups` rows exist, reach every slot and hold
      professor numbers no greater than `nbProfs` there. With no slot the
      solution is never read. */
  predicate Fits(inst: Timetable, s: seq<seq<nat>>)
  {
    || inst.nbSlots == 0
    || (&& inst.nbGroups <= |s|
        && forall g :: 0 <= g < inst.nbGroups ==>
             && inst.nbSlots <= |s[g]|
             && forall t :: 0 <= t < inst.nbSlots ==> s[g][t] <= inst.nbProfs)
  }

  /** The reference count of clashes in one slot: every non-zero entry that
      repeats an entry above it in the column is one clash. */
  function Clashes(col: seq<nat>): nat
  {
    if |col| == 0 then 0
    else
      var last := col[|col| - 1];
      var front := col[..|col| - 1];
      Clashes(front) + if last != 0 && last in front then 1 else 0
  }

  /** The clashes of a column are its non-zero entries minus its distinct
      non-zero professors. */
  lemma {:induction false} ClashesAreRepeats(col: seq<nat>)
    ensures Clashes(col) + |Teachers(col)| == NonZero(col)
  {
    if |col| > 0 {
      var last := col[|col| - 1];
      var front := col[..|col| - 1];
      ClashesAreRepeats(front);
      assert col == front + [last];
      assert Clashes(col) == Clashes(front) + if last != 0 && last in front then 1 else 0;
      assert NonZero(col) == NonZero(front) + if last != 0 then 1 else 0;
      if last != 0 && last !in front {
        assert last !in Teachers(front);
        assert Teachers(col) == Teachers(front) + {last};
        assert |Teachers(col)| == |Teachers(front)| + 1;
      } else {
        assert Teachers(col) == Teachers(front);
      }
    }
  }

  /** The distinct professors of a column (0 is not a professor). */
  function Teachers(col: seq<nat>): set<nat>
  {
    set p | p in col && p != 0
  }

  function NonZero(col: seq<nat>): nat
  {
    if |col| == 0 then 0 else NonZero(col[..|col| - 1]) + if col[|col| - 1] != 0 then 1 else 0
  }

  /** A column has no clash exactly when no professor appears in it twice. */
  lemma {:induction false} ClashesZero(col: seq<nat>)
    ensures Clashes(col) == 0 <==> forall i, j :: 0 <= i < j < |col| && col[j] != 0 ==> col[i] != col[j]
  {
    if |col| > 0 {
      var last := col[|col| - 1];
      var front := col[..|col| - 1];
      ClashesZero(front);
      if last != 0 && last in front {
        var i :| 0 <= i < |front| && front[i] == last;
        assert col[i] == col[|col| - 1];
      }
    }
  }

  /** What the second inner loop of `nb_collisions` adds for the professors
      `lo .. hi - 1`: one less than each professor's number of classes in
      the slot, for each professor who has one. */
  function Excess(col: seq<nat>, lo: nat, hi: nat): nat
    decreases hi
  {
    if hi <= lo then 0
    else
      var n := multiset(col)[hi - 1];
      Excess(col, lo, hi - 1) + if n != 0 then n - 1 else 0
  }

  lemma {:induction false} ExcessEmpty(lo: nat, hi: nat)
    ensures Excess([], lo, hi) == 0
    decreases hi
  {
    if lo < hi {
      ExcessEmpty(lo, hi - 1);
    }
  }

  lemma {:induction false} ExcessSnoc(col: seq<nat>, x: nat, lo: nat, hi: nat)
    ensures Excess(col + [x], lo, hi) == Excess(col, lo, hi) + if lo <= x < hi && x in col then 1 else 0
    decreases hi
  {
    if lo < hi {
      ExcessSnoc(col, x, lo, hi - 1);
      assert multiset(col + [x]) == multiset(col) + multiset{x};
    }
  }

  /** Counting per professor and counting repeats down the column agree
      when every entry is a professor number up to `profs` or 0. */
  lemma {:induction false} ExcessIsClashes(col: seq<nat>, profs: nat)
    requires forall k :: 0 <= k < |col| ==> col[k] <= profs
    ensures Excess(col, 1, profs + 1) == Clashes(col)
  {
    if |col| == 0 {
      ExcessEmpty(1, profs + 1);
    } else {
      var last := col[|col| - 1];
      var front := col[..|col| - 1];
      ExcessIsClashes(front, profs);
      assert col == front + [last];
      ExcessSnoc(front, last, 1, profs + 1);
    }
  }

  /** The clashes of the first `n` slots. */
  function SlotsClashes(table: seq<seq<nat>>, n: nat): nat
    requires Wide(table, n)
  {
    if n == 0 then 0 else SlotsClashes(table, n - 1) + Clashes(Column<nat>(table, n - 1))
  }

  /** The reference meaning of `nb_collisions`: the clashes of every slot
      among the first `nbGroups` rows, or the `IndexError` a solution of the
      wrong shape or with an unknown professor raises. */
  function Collisions(inst: Timetable, s: seq<seq<nat>>): Result<nat, Fault>
  {
    if !Fits(inst, s) then Failure(IndexOutOfRange)
    else if inst.nbSlots == 0 then Success(0)
    else Success(SlotsClashes(s[..inst.nbGroups], inst.nbSlots))
  }

  /** `ProblemEDT.nb_collisions` (and `cost`, which returns it): for each
      slot, tally the professors of the column in `prof_needed`, then add
      each tally above one and reset it. */
  method NbCollisions(inst: Timetable, s: seq<seq<nat>>) returns (r: Result<nat, Fault>)
    ensures r == Collisions(inst, s)
  {
    if !Fits(inst, s) {
      return Failure(IndexOutOfRange);
    }
    if inst.nbSlots == 0 {
      return Success(0);
    }
    FitsTable(inst, s);
    var collisions := TableClashes(s[..inst.nbGroups], inst.nbSlots, inst.nbProfs);
    return Success(collisions);
  }

  /** The slot loop of `nb_collisions` over a table whose entries are all
      professor numbers up to `profs` or 0. */
  method TableClashes(table: seq<seq<nat>>, slots: nat, profs: nat) returns (collisions: nat)
    requires Wide(table, slots)
    requires forall g, t :: 0 <= g < |table| && 0 <= t < slots ==> table[g][t] <= profs
    ensures collisions == SlotsClashes(table, slots)
  {
    collisions := 0;
    var needed: seq<nat> := Repeat(profs + 1, 0);
    for slot := 0 to slots
      invariant needed == Repeat(profs + 1, 0)
      invariant collisions == SlotsClashes(table, slot)
    {
      var added;
      added, needed := SlotPass(table, slot, profs, needed);
      collisions := collisions + added;
    }
  }

  /** One pass of the slot loop of `nb_collisions`: tally column `slot`,
      settle the tallies, then reset the tally of free periods, which leaves
      `prof_needed` all zeros again. */
  method SlotPass(table: seq<seq<nat>>, slot: nat, profs: nat, zeros: seq<nat>) returns (added: nat, needed: seq<nat>)
    requires Wide(table, slot + 1)
    requires forall g :: 0 <= g < |table| ==> table[g][slot] <= profs
    requires zeros == Repeat(profs + 1, 0)
    ensures added == Clashes(Column<nat>(table, slot))
    ensures needed == zeros
  {
    needed := Tally(table, slot, zeros);
    added, needed := Settle(Column<nat>(table, slot), needed);
    needed := needed[0 := 0];
    ExcessIsClashes(Column<nat>(table, slot), profs);
  }

  /** The rows `nb_collisions` reads, as a table. */
  lemma FitsTable(inst: Timetable, s: seq<seq<nat>>)
    requires Fits(inst, s) && inst.nbSlots > 0
    ensures Wide(s[..inst.nbGroups], inst.nbSlots)
    ensures forall g, t :: 0 <= g < inst.nbGroups && 0 <= t < inst.nbSlots ==> s[..inst.nbGroups][g][t] <= inst.nbProfs
  {
  }

  /** The first inner loop of `nb_collisions`: count each entry of column
      `slot` in `prof_needed`, starting from all zeros. */
  method Tally(table: seq<seq<nat>>, slot: nat, zeros: seq<nat>) returns (needed: seq<nat>)
    requires Wide(table, slot + 1)
    requires forall g :: 0 <= g < |table| ==> table[g][slot] < |zeros|
    requires forall p :: 0 <= p < |zeros| ==> zeros[p] == 0
    ensures |needed| == |zeros|
    ensures forall p: nat :: p < |zeros| ==> needed[p] == multiset(Column<nat>(table, slot))[p]
  {
    ghost var col := Column<nat>(table, slot);
    needed := zeros;
    for group := 0 to |table|
      invariant |needed| == |zeros|
      invariant forall p: nat :: p < |zeros| ==> needed[p] == multiset(col[..group])[p]
    {
      var x := table[group][slot];
      assert col[..group + 1] == col[..group] + [x];
      needed := needed[x := needed[x] + 1];
    }
    assert col[..|table|] == col;
    forall p: nat | p < |zeros|
      ensures needed[p] == multiset(Column<nat>(table, slot))[p]
    {
    }
  }

  /** The second inner loop of `nb_collisions`: for professors 1 to the
      last, add each non-zero tally less one and reset it to 0; the tally
      of free periods is left alone. */
  method Settle(col: seq<nat>, tally: seq<nat>) returns (added: nat, needed: seq<nat>)
    requires |tally| > 0
    requires forall p: nat :: p < |tally| ==> tally[p] == multiset(col)[p]
    ensures added == Excess(col, 1, |tally|)
    ensures |needed| == |tally| && needed[0] == tally[0]
    ensures forall p :: 1 <= p < |needed| ==> needed[p] == 0
  {
    needed := tally;
    added := 0;
    for i := 1 to |tally|
      invariant |needed| == |tally| && needed[0] == tally[0]
      invariant forall p :: 1 <= p < i ==> needed[p] == 0
      invariant forall p :: i <= p < |tally| ==> needed[p] == tally[p]
      invariant added == Excess(col, 1, i)
    {
      if needed[i] != 0 {
        added := added + needed[i] - 1;
        needed := needed[i := 0];
      }
    }
  }

  /** A timetable without collisions is one where no professor is booked
      twice in the same slot. */
  lemma CollisionsZero(inst: Timetable, s: seq<seq<nat>>)
    requires Fits(inst, s)
    ensures Collisions(inst, s) == Success(0) <==>
      forall t, g, h :: 0 <= t < inst.nbSlots && 0 <= g < h < inst.nbGroups && s[h][t] != 0 ==> s[g][t] != s[h][t]
  {
    if inst.nbSlots > 0 {
      var table := s[..inst.nbGroups];
      SlotsClashesZero(table, inst.nbSlots);
    }
  }

  lemma {:induction false} SlotsClashesZero(table: seq<seq<nat>>, n: nat)
    requires Wide(table, n)
    ensures SlotsClashes(table, n) == 0 <==>
      forall t, g, h :: 0 <= t < n && 0 <= g < h < |table| && table[h][t] != 0 ==> table[g][t] != table[h][t]
  {
    if n > 0 {
      SlotsClashesZero(table, n - 1);
      var col := Column<nat>(table, n - 1);
      ClashesZero(col);
    }
  }

  /** Why `assert_solution` refuses a solution: one of its three assertions
      fails, or it indexes past the end of a list. */
  datatype Rejection =
    | UnknownProfessor
    | NotAllocated(group: nat, slot: nat)
    | WrongCount(group: nat, prof: nat)
    | RowIndex

  /** The number of classes professor `p` gives in `row`; free periods (0)
      are never counted. */
  function Taught(row: seq<nat>, p: nat): nat
  {
    if p == 0 then 0 else multiset(row)[p]
  }

  /** Every entry of every row is 0 or a professor number. */
  ghost predicate InRange(inst: Timetable, s: seq<seq<nat>>)
  {
    forall g, t :: 0 <= g < |s| && 0 <= t < |s[g]| ==> s[g][t] <= inst.nbProfs
  }

  /** Group `g` of `s`: its row reaches the first row's length, holds only
      free periods and professors allocated to the group up to that length,
      and each allocated professor teaches exactly `perCourse` classes
      there. */
  ghost predicate GroupAccepted(allocation: seq<seq<nat>>, s: seq<seq<nat>>, perCourse: nat, g: nat)
    requires g < |s| && g < |allocation|
  {
    && |s[0]| <= |s[g]|
    && (forall t :: 0 <= t < |s[0]| ==> s[g][t] == 0 || s[g][t] in allocation[g])
    && (forall p :: p in allocation[g] ==> Taught(s[g][..|s[0]|], p) == perCourse)
  }

  /** What `assert_solution` accepts, stated declaratively with the number
      of classes per allocated professor as a parameter: entries in range,
      no more rows than groups, and every group accepted. */
  ghost predicate Accepts(inst: Timetable, s: seq<seq<nat>>, perCourse: nat)
  {
    && InRange(inst, s)
    && |s| <= |inst.allocation|
    && forall g :: 0 <= g < |s| ==> GroupAccepted(inst.allocation, s, perCourse, g)
  }

  /** The checks of `assert_solution`, in its order, with the required
      number of classes per allocated professor as a parameter. The source
      passes the literal 3. */
  function Validate(inst: Timetable, s: seq<seq<nat>>, perCourse: nat): (r: Result<(), Rejection>)
    ensures !InRange(inst, s) ==> r == Failure(UnknownProfessor)
  {
    if exists g, t :: 0 <= g < |s| && 0 <= t < |s[g]| && s[g][t] > inst.nbProfs then Failure(UnknownProfessor)
    else CheckGroups(inst.allocation, s, perCourse, 0)
  }

  /** Groups `g ..`: the allocation row is read first (an `IndexError`
      past the last group), then every slot up to the first row's length,
      then the tallies. */
  function CheckGroups(allocation: seq<seq<nat>>, s: seq<seq<nat>>, perCourse: nat, g: nat): Result<(), Rejection>
    requires g <= |s|
    decreases |s| - g
  {
    if g == |s| then Success(())
    else if |allocation| <= g then Failure(RowIndex)
    else
      var width := |s[0]|;
      var _ :- CheckSlots(allocation[g], s[g], width, g, 0);
      var _ :- CheckCounts(allocation[g], s[g][..width], perCourse, g, 0);
      CheckGroups(allocation, s, perCourse, g + 1)
  }

  function CheckSlots(allowed: seq<nat>, row: seq<nat>, width: nat, g: nat, t: nat): (r: Result<(), Rejection>)
    requires t <= width
    ensures r.Success? ==> t == width || width <= |row|
    decreases width - t
  {
    if t == width then Success(())
    else if |row| <= t then Failure(RowIndex)
    else if row[t] != 0 && row[t] !in allowed then Failure(NotAllocated(g, t))
    else CheckSlots(allowed, row, width, g, t + 1)
  }

  function CheckCounts(allowed: seq<nat>, row: seq<nat>, perCourse: nat, g: nat, k: nat): Result<(), Rejection>
    requires k <= |allowed|
    decreases |allowed| - k
  {
    if k == |allowed| then Success(())
    else if Taught(row, allowed[k]) != perCourse then Failure(WrongCount(g, allowed[k]))
    else CheckCounts(allowed, row, perCourse, g, k + 1)
  }

  lemma {:induction false} CheckSlotsAccepts(allowed: seq<nat>, row: seq<nat>, width: nat, g: nat, t: nat)
    requires t <= width
    ensures CheckSlots(allowed, row, width, g, t).Success? <==>
      && (t < width ==> width <= |row|)
      && forall u :: t <= u < width && u < |row| ==> row[u] == 0 || row[u] in allowed
    decreases width - t
  {
    if t < width {
      CheckSlotsAccepts(allowed, row, width, g, t + 1);
    }
  }

  lemma {:induction false} CheckCountsAccepts(allowed: seq<nat>, row: seq<nat>, perCourse: nat, g: nat, k: nat)
    requires k <= |allowed|
    ensures CheckCounts(allowed, row, perCourse, g, k).Success? <==>
      forall m :: k <= m < |allowed| ==> Taught(row, allowed[m]) == perCourse
    decreases |allowed| - k
  {
    if k < |allowed| {
      CheckCountsAccepts(allowed, row, perCourse, g, k + 1);
    }
  }

  lemma {:induction false} CheckGroupsAccepts(allocation: seq<seq<nat>>, s: seq<seq<nat>>, perCourse: nat, g: nat)
    requires g <= |s|
    ensures CheckGroups(allocation, s, perCourse, g).Success? <==>
      && (g < |s| ==> |s| <= |allocation|)
      && forall h :: g <= h < |s| && h < |allocation| ==> GroupAccepted(allocation, s, perCourse, h)
    decreases |s| - g
  {
    if g < |s| {
      CheckGroupsAccepts(allocation, s, perCourse, g + 1);
      if g < |allocation| {
        GroupAcceptedChecks(allocation, s, perCourse, g);
      }
    }
  }

  /** The slot and tally checks of one group pass exactly when the group is
      accepted. */
  lemma GroupAcceptedChecks(allocation: seq<seq<nat>>, s: seq<seq<nat>>, perCourse: nat, g: nat)
    requires g < |s| && g < |allocation|
    ensures GroupAccepted(allocation, s, perCourse, g) <==>
      && CheckSlots(allocation[g], s[g], |s[0]|, g, 0).Success?
      && |s[0]| <= |s[g]|
      && CheckCounts(allocation[g], s[g][..|s[0]|], perCourse, g, 0).Success?
  {
    var width := |s[0]|;
    CheckSlotsAccepts(allocation[g], s[g], width, g, 0);
    if width <= |s[g]| {
      var row := s[g][..width];
      CheckCountsAccepts(allocation[g], row, perCourse, g, 0);
      if forall m :: 0 <= m < |allocation[g]| ==> Taught(row, allocation[g][m]) == perCourse {
        forall p | p in allocation[g]
          ensures Taught(row, p) == perCourse
        {
          var m :| 0 <= m < |allocation[g]| && allocation[g][m] == p;
        }
      }
    }
  }

  /** The validator accepts exactly the solutions `Accepts` describes, and
      reports an out-of-range entry before anything else. */
  lemma ValidateAccepts(inst: Timetable, s: seq<seq<nat>>, perCourse: nat)
    ensures Validate(inst, s, perCourse).Success? <==> Accepts(inst, s, perCourse)
    ensures Validate(inst, s, perCourse) == Failure(UnknownProfessor) <==> !InRange(inst, s)
  {
    CheckGroupsAccepts(inst.allocation, s, perCourse, 0);
    if InRange(inst, s) {
      assert CheckGroups(inst.allocation, s, perCourse, 0) != Failure(UnknownProfessor) by {
        CheckGroupsNeverOutOfRange(inst.allocation, s, perCourse, 0);
      }
    }
  }

  lemma {:induction false} CheckGroupsNeverOutOfRange(allocation: seq<seq<nat>>, s: seq<seq<nat>>, perCourse: nat, g: nat)
    requires g <= |s|
    ensures CheckGroups(allocation, s, perCourse, g) != Failure(UnknownProfessor)
    decreases |s| - g
  {
    if g < |s| && g < |allocation| {
      CheckSlotsNeverOutOfRange(allocation[g], s[g], |s[0]|, g, 0);
      if |s[0]| <= |s[g]| {
        CheckCountsNeverOutOfRange(allocation[g], s[g][..|s[0]|], perCourse, g, 0);
      }
      CheckGroupsNeverOutOfRange(allocation, s, perCourse, g + 1);
    }
  }

  lemma {:induction false} CheckSlotsNeverOutOfRange(allowed: seq<nat>, row: seq<nat>, width: nat, g: nat, t: nat)
    requires t <= width
    ensures CheckSlots(allowed, row, width, g, t) != Failure(UnknownProfessor)
    decreases width - t
  {
    if t < width {
      CheckSlotsNeverOutOfRange(allowed, row, width, g, t + 1);
    }
  }

  lemma {:induction false} CheckCountsNeverOutOfRange(allowed: seq<nat>, row: seq<nat>, perCourse: nat, g: nat, k: nat)
    requires k <= |allowed|
    ensures CheckCounts(allowed, row, perCourse, g, k) != Failure(UnknownProfessor)
    decreases |allowed| - k
  {
    if k < |allowed| {
      CheckCountsNeverOutOfRange(allowed, row, perCourse, g, k + 1);
    }
  }

  /** `ProblemEDT.assert_solution` as written: each allocated professor must
      give exactly three classes, whatever `nb_course_per_prof` says. */
  function AssertSolution(inst: Timetable, s: seq<seq<nat>>): (r: Result<(), Rejection>)
    ensures r.Success? <==> Accepts(inst, s, 3)
  {
    ValidateAccepts(inst, s, 3);
    Validate(inst, s, 3)
  }

  /** The validator with `nb_course_per_prof` in place of the literal 3: each allocated
      professor gives `nb_course_per_prof` classes to the group. */
  function CheckSolution(inst: Timetable, s: seq<seq<nat>>): (r: Result<(), Rejection>)
    ensures r.Success? <==> Accepts(inst, s, inst.nbCoursePerProf)
  {
    ValidateAccepts(inst, s, inst.nbCoursePerProf);
    Validate(inst, s, inst.nbCoursePerProf)
  }

  /** No professor appears twice in the sequence. */
  ghost predicate NoRepeats(xs: seq<nat>)
  {
    forall i, j :: 0 <= i < j < |xs| ==> xs[i] != xs[j]
  }

  lemma NoRepeatsCount(xs: seq<nat>, p: nat)
    requires NoRepeats(xs) && p in xs
    ensures multiset(xs)[p] == 1
  {
    var i :| 0 <= i < |xs| && xs[i] == p;
    assert xs == xs[..i] + [p] + xs[i + 1..];
    forall a | 0 <= a < i
      ensures xs[..i][a] != p
    {
      assert xs[a] != xs[i];
    }
    var rest := xs[i + 1..];
    forall b | 0 <= b < |rest|
      ensures rest[b] != p
    {
      assert rest[b] == xs[i + 1 + b];
    }
  }

  lemma DivBetween(k: nat, q: nat, b: nat)
    requires b > 0 && q * b <= k < q * b + b
    ensures k / b == q
  {
    var d := k / b;
    assert k == d * b + k % b;
    if d < q {
      MulMonotone(d + 1, q, b);
    } else if d > q {
      MulMonotone(q + 1, d, b);
    }
  }

  /** Entry `k` of the flat list is professor `k / perProf + 1`. */
  lemma {:induction false} ToBeAffectedAt(profs: nat, perProf: nat)
    requires perProf > 0
    ensures forall k :: 0 <= k < |ToBeAffected(profs, perProf)| ==> ToBeAffected(profs, perProf)[k] == k / perProf + 1
  {
    if profs > 0 {
      ToBeAffectedAt(profs - 1, perProf);
      var t := ToBeAffected(profs, perProf);
      var front := ToBeAffected(profs - 1, perProf);
      forall k | |front| <= k < |t|
        ensures t[k] == k / perProf + 1
      {
        MulSucc(profs - 1, perProf);
        DivBetween(k, profs - 1, perProf);
      }
    }
  }

  lemma DivApart(x: nat, y: nat, b: nat)
    requires b > 0 && x + b <= y
    ensures x / b < y / b
  {
    var dx, dy := x / b, y / b;
    assert x == dx * b + x % b && y == dy * b + y % b;
    if dy <= dx {
      MulMonotone(dy, dx, b);
    }
  }

  /** When there are at least as many groups as groups per professor, no
      group is allocated the same professor twice: two cells of a row are
      `nb_groups` apart in the flat list, which is more than one
      professor's run. Both demonstration instances are of this kind. */
  lemma AllocationRowsDistinct(profs: nat, groups: nat, perProf: nat, perGroup: nat)
    requires groups * perGroup <= profs * perProf && perProf <= groups
    ensures forall g :: 0 <= g < groups ==> NoRepeats(Allocate(profs, groups, perProf, perGroup)[g])
  {
    var a := Allocate(profs, groups, perProf, perGroup);
    var t: seq<nat> := ToBeAffected(profs, perProf);
    if perProf > 0 {
      ToBeAffectedAt(profs, perProf);
      forall g, i, j | 0 <= g < groups && 0 <= i < j < perGroup
        ensures a[g][i] != a[g][j]
      {
        AllocateIndexInBounds(g, i, groups, perGroup);
        AllocateIndexInBounds(g, j, groups, perGroup);
        MulMonotone(i + 1, j, groups);
        MulSucc(i, groups);
        DivApart(g + i * groups, g + j * groups, perProf);
      }
    } else {
      assert groups * perGroup == 0;
    }
  }

  /** The random draws of one `random.shuffle` per group row. */
  ghost predicate RowDraws(inst: Timetable, draws: seq<seq<nat>>)
  {
    && |draws| == inst.nbGroups
    && forall g :: 0 <= g < inst.nbGroups ==> ShuffleDraws(inst.nbSlots, draws[g])
  }

  /** Group `g`'s row before the shuffle: its allocated professors,
      `nb_course_per_prof` times over, then the free periods. */
  function UnshuffledRow(inst: Timetable, g: nat): (row: seq<nat>)
    requires Valid(inst) && g < inst.nbGroups
    ensures |row| == inst.nbSlots
  {
    CycleCounts(inst.nbCoursePerProf, inst.allocation[g]);
    Cycle<nat>(inst.nbCoursePerProf, inst.allocation[g])
      + Repeat<nat>(inst.nbSlots - inst.nbCoursePerProf * inst.nbProfPerGroup, 0)
  }

  /** `ProblemEDT.random_solution` with the shuffles' draws as input. */
  function RandomSolution(inst: Timetable, draws: seq<seq<nat>>): (s: seq<seq<nat>>)
    requires Valid(inst) && RowDraws(inst, draws)
    ensures |s| == inst.nbGroups
    ensures forall g :: 0 <= g < |s| ==> |s[g]| == inst.nbSlots
  {
    seq(inst.nbGroups, g requires 0 <= g < inst.nbGroups => Shuffle(UnshuffledRow(inst, g), draws[g]))
  }

  /** Whatever the shuffles draw, row `g` holds each allocated professor
      `nb_course_per_prof` times per allocation, nobody else, and exactly
      the spare slots as free periods. */
  lemma RandomSolutionRows(inst: Timetable, draws: seq<seq<nat>>)
    requires Valid(inst) && RowDraws(inst, draws)
    ensures forall g, p: nat :: 0 <= g < inst.nbGroups && p != 0 ==>
      multiset(RandomSolution(inst, draws)[g])[p] == inst.nbCoursePerProf * multiset(inst.allocation[g])[p]
    ensures forall g :: 0 <= g < inst.nbGroups ==>
      multiset(RandomSolution(inst, draws)[g])[0] == inst.nbSlots - inst.nbCoursePerProf * inst.nbProfPerGroup
  {
    forall g | 0 <= g < inst.nbGroups
      ensures forall p: nat :: p != 0 ==>
        multiset(RandomSolution(inst, draws)[g])[p] == inst.nbCoursePerProf * multiset(inst.allocation[g])[p]
      ensures multiset(RandomSolution(inst, draws)[g])[0] == inst.nbSlots - inst.nbCoursePerProf * inst.nbProfPerGroup
    {
      RandomSolutionRow(inst, draws, g);
    }
  }

  /** `RandomSolutionRows` for one group. */
  lemma RandomSolutionRow(inst: Timetable, draws: seq<seq<nat>>, g: nat)
    requires Valid(inst) && RowDraws(inst, draws) && g < inst.nbGroups
    ensures forall p: nat :: p != 0 ==>
      multiset(RandomSolution(inst, draws)[g])[p] == inst.nbCoursePerProf * multiset(inst.allocation[g])[p]
    ensures multiset(RandomSolution(inst, draws)[g])[0] == inst.nbSlots - inst.nbCoursePerProf * inst.nbProfPerGroup
  {
    AllocateRange(inst.nbProfs, inst.nbGroups, inst.nbGroupPerProf, inst.nbProfPerGroup);
    RowCounts(inst, g);
    assert multiset(RandomSolution(inst, draws)[g]) == multiset(UnshuffledRow(inst, g));
  }

  lemma RowCounts(inst: Timetable, g: nat)
    requires Valid(inst) && g < inst.nbGroups
    requires forall i :: 0 <= i < |inst.allocation[g]| ==> 1 <= inst.allocation[g][i]
    ensures forall p: nat :: p != 0 ==> multiset(UnshuffledRow(inst, g))[p] == inst.nbCoursePerProf * multiset(inst.allocation[g])[p]
    ensures multiset(UnshuffledRow(inst, g))[0] == inst.nbSlots - inst.nbCoursePerProf * inst.nbProfPerGroup
  {
    var spare := inst.nbSlots - inst.nbCoursePerProf * inst.nbProfPerGroup;
    var cycled: seq<nat> := Cycle<nat>(inst.nbCoursePerProf, inst.allocation[g]);
    var zeros: seq<nat> := Repeat<nat>(spare, 0);
    assert multiset(UnshuffledRow(inst, g)) == multiset(cycled) + multiset(zeros);
    CycleCounts(inst.nbCoursePerProf, inst.allocation[g]);
    forall p: nat
      ensures multiset(zeros)[p] == if p == 0 then spare else 0
    {
      RepeatCount(spare, 0, p);
    }
    assert 0 !in inst.allocation[g];
  }

  /** Every cell of a random solution is a free period or one of the
      group's allocated professors. */
  lemma RandomSolutionCells(inst: Timetable, draws: seq<seq<nat>>)
    requires Valid(inst) && RowDraws(inst, draws)
    ensures forall g, t :: 0 <= g < inst.nbGroups && 0 <= t < inst.nbSlots ==>
      RandomSolution(inst, draws)[g][t] == 0 || RandomSolution(inst, draws)[g][t] in inst.allocation[g]
  {
    forall g, t | 0 <= g < inst.nbGroups && 0 <= t < inst.nbSlots
      ensures RandomSolution(inst, draws)[g][t] == 0 || RandomSolution(inst, draws)[g][t] in inst.allocation[g]
    {
      RandomSolutionCell(inst, draws, g, t);
    }
  }

  lemma RandomSolutionCell(inst: Timetable, draws: seq<seq<nat>>, g: nat, t: nat)
    requires Valid(inst) && RowDraws(inst, draws) && g < inst.nbGroups && t < inst.nbSlots
    ensures RandomSolution(inst, draws)[g][t] == 0 || RandomSolution(inst, draws)[g][t] in inst.allocation[g]
  {
    RandomSolutionRow(inst, draws, g);
    CellFromCounts(RandomSolution(inst, draws)[g], inst.allocation[g], inst.nbCoursePerProf, t);
  }

  /** A row whose non-zero counts are multiples of the allocation's holds
      only free periods and allocated professors. */
  lemma CellFromCounts(row: seq<nat>, given: seq<nat>, c: nat, t: nat)
    requires t < |row|
    requires forall p: nat :: p != 0 ==> multiset(row)[p] == c * multiset(given)[p]
    ensures row[t] == 0 || row[t] in given
  {
    var x: nat := row[t];
    assert x in multiset(row);
    if x != 0 {
      assert multiset(row)[x] == c * multiset(given)[x];
      assert x in multiset(given);
    }
  }

  /** The validator with `nb_course_per_prof` in place of the literal 3 accepts every random
      solution of an instance whose groups are never allocated the same
      professor twice. */
  lemma RandomSolutionAccepted(inst: Timetable, draws: seq<seq<nat>>)
    requires Valid(inst) && RowDraws(inst, draws)
    requires forall g :: 0 <= g < inst.nbGroups ==> NoRepeats(inst.allocation[g])
    ensures CheckSolution(inst, RandomSolution(inst, draws)).Success?
  {
    var s := RandomSolution(inst, draws);
    RandomSolutionCells(inst, draws);
    AllocateRange(inst.nbProfs, inst.nbGroups, inst.nbGroupPerProf, inst.nbProfPerGroup);
    forall g, t | 0 <= g < |s| && 0 <= t < |s[g]|
      ensures s[g][t] <= inst.nbProfs
    {
      if s[g][t] != 0 {
        var i :| 0 <= i < |inst.allocation[g]| && inst.allocation[g][i] == s[g][t];
      }
    }
    forall g | 0 <= g < |s|
      ensures GroupAccepted(inst.allocation, s, inst.nbCoursePerProf, g)
    {
      RandomSolutionTaught(inst, draws, g);
      assert s[g][..|s[0]|] == s[g];
    }
  }

  lemma RandomSolutionTaught(inst: Timetable, draws: seq<seq<nat>>, g: nat)
    requires Valid(inst) && RowDraws(inst, draws) && g < inst.nbGroups
    requires NoRepeats(inst.allocation[g])
    ensures forall p :: p in inst.allocation[g] ==> Taught(RandomSolution(inst, draws)[g], p) == inst.nbCoursePerProf
  {
    RandomSolutionRow(inst, draws, g);
    AllocateRange(inst.nbProfs, inst.nbGroups, inst.nbGroupPerProf, inst.nbProfPerGroup);
    forall p | p in inst.allocation[g]
      ensures Taught(RandomSolution(inst, draws)[g], p) == inst.nbCoursePerProf
    {
      var i :| 0 <= i < |inst.allocation[g]| && inst.allocation[g][i] == p;
      NoRepeatsCount(inst.allocation[g], p);
      var row := RandomSolution(inst, draws)[g];
      assert p != 0;
      assert multiset(row)[p] == inst.nbCoursePerProf * multiset(inst.allocation[g])[p];
    }
  }

  /** What `all_neighbors` indexes: with two slots or more, the first
      `nbGroups` rows exist and reach every slot. */
  ghost predicate Shaped(inst: Timetable, s: seq<seq<nat>>)
  {
    || inst.nbSlots < 2
    || (&& inst.nbGroups <= |s|
        && forall g :: 0 <= g < inst.nbGroups ==> inst.nbSlots <= |s[g]|)
  }

  /** `s` with the cells `i` and `j` of row `g` exchanged. */
  function Move(s: seq<seq<nat>>, g: nat, i: nat, j: nat): (r: seq<seq<nat>>)
    requires g < |s| && i < |s[g]| && j < |s[g]|
    ensures |r| == |s| && r[g] == Swap(s[g], i, j)
    ensures forall h :: 0 <= h < |s| && h != g ==> r[h] == s[h]
  {
    s[g := Swap(s[g], i, j)]
  }

  /** Row `g`'s neighbours: its transpositions `(i, j)`, `i < j`, in
      lexicographic order. */
  function GroupNeighbors(inst: Timetable, s: seq<seq<nat>>, g: nat): (ns: seq<seq<seq<nat>>>)
    requires Shaped(inst, s) && g < inst.nbGroups
    ensures |ns| == |Pairs(inst.nbSlots)|
  {
    var ps := Pairs(inst.nbSlots);
    PairsFacts(inst.nbSlots);
    assert forall k :: 0 <= k < |ps| ==> ps[k] in ps;
    seq(|ps|, k requires 0 <= k < |ps| => Move(s, g, ps[k].0, ps[k].1))
  }

  /** `ProblemEDT.all_neighbors`: a copy of `s`, then `s` with every in-row
      transposition, group by group. The generator swaps in one buffer, yields
      it and swaps back; each yield is modelled by the buffer's contents at
      that moment. */
  function AllNeighbors(inst: Timetable, s: seq<seq<nat>>): (r: seq<seq<seq<nat>>>)
    requires Shaped(inst, s)
    ensures |r| > 0 && r[0] == s
  {
    [s] + Flatten(seq(inst.nbGroups, g requires 0 <= g < inst.nbGroups => GroupNeighbors(inst, s, g)))
  }

  /** Where block `g` of equally long blocks starts: `g * m`, counted up
      block by block. */
  function Offset(g: nat, m: nat): nat
  {
    if g == 0 then 0 else Offset(g - 1, m) + m
  }

  lemma {:induction false} OffsetIsProduct(g: nat, m: nat)
    ensures Offset(g, m) == g * m
  {
    if g > 0 {
      OffsetIsProduct(g - 1, m);
      MulSucc(g - 1, m);
    }
  }

  /** Blocks of length `m` laid end to end: `Offset(|blocks|, m)` entries. */
  lemma {:induction false} FlattenBlocksLength<T>(blocks: seq<seq<T>>, m: nat)
    requires forall g :: 0 <= g < |blocks| ==> |blocks[g]| == m
    ensures |Flatten(blocks)| == Offset(|blocks|, m)
  {
    if |blocks| > 0 {
      FlattenBlocksLength(blocks[1..], m);
      OffsetShift(|blocks| - 1, m);
    }
  }

  /** Entry `k` of block `g` lands at `Offset(g, m) + k`. */
  lemma {:induction false} FlattenBlockAt<T>(blocks: seq<seq<T>>, m: nat, g: nat, k: nat)
    requires forall h :: 0 <= h < |blocks| ==> |blocks[h]| == m
    requires g < |blocks| && k < m
    ensures Offset(g, m) + k < |Flatten(blocks)|
    ensures Flatten(blocks)[Offset(g, m) + k] == blocks[g][k]
  {
    var rest := blocks[1..];
    assert Flatten(blocks) == blocks[0] + Flatten(rest);
    if g > 0 {
      FlattenBlockAt(rest, m, g - 1, k);
      OffsetShift(g - 1, m);
    }
  }

  lemma OffsetShift(g: nat, m: nat)
    ensures Offset(g + 1, m) == m + Offset(g, m)
  {
  }

  /** The neighbourhood holds `1 + nbGroups * nbSlots * (nbSlots - 1) / 2`
      solutions: `s` itself, then at position `1 + g * m + k` (`m` pairs
      per group) for group `g` and the `k`-th pair `i < j` in
      lexicographic order, `s` with row `g`'s cells `i` and `j`
      exchanged. Each neighbour differs from `s` by that one transposition
      only, because the buffer is restored after each yield. */
  lemma AllNeighborsAt(inst: Timetable, s: seq<seq<nat>>)
    requires Shaped(inst, s)
    ensures |AllNeighbors(inst, s)| == 1 + Offset(inst.nbGroups, |Pairs(inst.nbSlots)|)
    ensures 2 * (|AllNeighbors(inst, s)| - 1) == inst.nbGroups * inst.nbSlots * (inst.nbSlots - 1)
    ensures forall g, k :: 0 <= g < inst.nbGroups && 0 <= k < |Pairs(inst.nbSlots)| ==> MoveAt(inst, s, g, k)
  {
    AllNeighborsCount(inst, s);
    forall g, k | 0 <= g < inst.nbGroups && 0 <= k < |Pairs(inst.nbSlots)|
      ensures MoveAt(inst, s, g, k)
    {
      NeighborAt(inst, s, g, k);
    }
  }

  /** Position `1 + Offset(g, m) + k` of the neighbourhood, `m` pairs per
      group, holds `s` with pair `k`, `i < j`, of row `g` exchanged. */
  ghost predicate MoveAt(inst: Timetable, s: seq<seq<nat>>, g: nat, k: nat)
    requires Shaped(inst, s) && g < inst.nbGroups && k < |Pairs(inst.nbSlots)|
  {
    && 1 + Offset(g, |Pairs(inst.nbSlots)|) + k < |AllNeighbors(inst, s)|
    && Pairs(inst.nbSlots)[k].0 < Pairs(inst.nbSlots)[k].1 < inst.nbSlots
    && AllNeighbors(inst, s)[1 + Offset(g, |Pairs(inst.nbSlots)|) + k]
       == Move(s, g, Pairs(inst.nbSlots)[k].0, Pairs(inst.nbSlots)[k].1)
  }

  /** The size of the neighbourhood: one block of `m` transpositions per
      group after `s` itself. */
  lemma AllNeighborsCount(inst: Timetable, s: seq<seq<nat>>)
    requires Shaped(inst, s)
    ensures |AllNeighbors(inst, s)| == 1 + Offset(inst.nbGroups, |Pairs(inst.nbSlots)|)
    ensures 2 * (|AllNeighbors(inst, s)| - 1) == inst.nbGroups * inst.nbSlots * (inst.nbSlots - 1)
  {
    var n := inst.nbSlots;
    var m := |Pairs(n)|;
    var blocks := seq(inst.nbGroups, g requires 0 <= g < inst.nbGroups => GroupNeighbors(inst, s, g));
    assert AllNeighbors(inst, s) == [s] + Flatten(blocks);
    FlattenBlocksLength(blocks, m);
    PairsFacts(n);
    NeighborCount(inst.nbGroups, n, m);
  }

  lemma NeighborAt(inst: Timetable, s: seq<seq<nat>>, g: nat, k: nat)
    requires Shaped(inst, s) && g < inst.nbGroups && k < |Pairs(inst.nbSlots)|
    ensures 1 + Offset(g, |Pairs(inst.nbSlots)|) + k < |AllNeighbors(inst, s)|
    ensures Pairs(inst.nbSlots)[k].0 < Pairs(inst.nbSlots)[k].1 < inst.nbSlots
    ensures AllNeighbors(inst, s)[1 + Offset(g, |Pairs(inst.nbSlots)|) + k]
         == Move(s, g, Pairs(inst.nbSlots)[k].0, Pairs(inst.nbSlots)[k].1)
  {
    var n := inst.nbSlots;
    var m := |Pairs(n)|;
    var blocks := seq(inst.nbGroups, h requires 0 <= h < inst.nbGroups => GroupNeighbors(inst, s, h));
    FlattenBlockAt(blocks, m, g, k);
    PairsFacts(n);
    assert Pairs(n)[k] in Pairs(n);
    assert blocks[g][k] == Move(s, g, Pairs(n)[k].0, Pairs(n)[k].1);
  }

  lemma NeighborCount(groups: nat, n: nat, m: nat)
    requires 2 * m == n * (n - 1)
    ensures 2 * Offset(groups, m) == groups * n * (n - 1)
  {
    OffsetIsProduct(groups, m);
    var pairs := n * (n - 1);
    calc {
      2 * (groups * m);
      groups * (2 * m);
      groups * pairs;
      groups * n * (n - 1);
    }
  }

  /** Every neighbour keeps the number of rows and the contents of every
      row: only the order within one row changes. */
  lemma AllNeighborsKeepRows(inst: Timetable, s: seq<seq<nat>>)
    requires Shaped(inst, s)
    ensures forall k, h :: 0 <= k < |AllNeighbors(inst, s)| && 0 <= h < |s| ==>
      |AllNeighbors(inst, s)[k]| == |s| && multiset(AllNeighbors(inst, s)[k][h]) == multiset(s[h])
  {
    forall k | 0 <= k < |AllNeighbors(inst, s)|
      ensures |AllNeighbors(inst, s)[k]| == |s|
      ensures forall h :: 0 <= h < |s| ==> multiset(AllNeighbors(inst, s)[k][h]) == multiset(s[h])
    {
      if k > 0 {
        NeighborIsMove(inst, s, k);
      }
    }
  }

  /** Neighbour `k > 0` is one transposition inside one row of `s`. */
  lemma NeighborIsMove(inst: Timetable, s: seq<seq<nat>>, k: nat)
    requires Shaped(inst, s) && 1 <= k < |AllNeighbors(inst, s)|
    ensures |AllNeighbors(inst, s)[k]| == |s|
    ensures forall h :: 0 <= h < |s| ==> multiset(AllNeighbors(inst, s)[k][h]) == multiset(s[h])
  {
    AllNeighborsCount(inst, s);
    var g, i := BlockPosition(k - 1, |Pairs(inst.nbSlots)|, inst.nbGroups);
    NeighborAt(inst, s, g, i);
  }

  /** Entry `x` of `groups` blocks of length `m` is entry `i` of block `g`. */
  lemma BlockPosition(x: nat, m: nat, groups: nat) returns (g: nat, i: nat)
    requires x < Offset(groups, m)
    ensures g < groups && i < m && x == Offset(g, m) + i
  {
    OffsetIsProduct(groups, m);
    assert m > 0;
    g, i := x / m, x % m;
    DivPosition(x, g, i, m, groups);
    OffsetIsProduct(g, m);
  }

  lemma DivPosition(x: nat, g: nat, i: nat, m: nat, groups: nat)
    requires x < groups * m && m > 0 && g == x / m && i == x % m
    ensures g < groups && i < m && x == g * m + i
  {
    if g >= groups {
      MulMonotone(groups, g, m);
    }
  }

  /** `ProblemEDT.random_neighbor` with its three `randint` draws as input:
      a copy of `s` with cells `i` and `j` (possibly equal) of row `group`
      exchanged. Without a group or a slot the draw itself fails; a short
      solution can make the subscript fail. */
  function RandomNeighbor(inst: Timetable, s: seq<seq<nat>>, group: nat, i: nat, j: nat): (r: Result<seq<seq<nat>>, Fault>)
    requires inst.nbGroups == 0 || inst.nbSlots == 0 || (group < inst.nbGroups && i < inst.nbSlots && j < inst.nbSlots)
    ensures r == Failure(EmptyRange) <==> inst.nbGroups == 0 || inst.nbSlots == 0
    ensures r == Failure(IndexOutOfRange) <==>
      && 0 < inst.nbGroups && 0 < inst.nbSlots
      && (|s| <= group || |s[group]| <= i || |s[group]| <= j)
    ensures r.Success? ==> |r.value| == |s| && group < |s| && |r.value[group]| == |s[group]|
    ensures r.Success? ==> forall h :: 0 <= h < |s| ==> multiset(r.value[h]) == multiset(s[h])
    ensures r.Success? ==> forall h :: 0 <= h < |s| && h != group ==> r.value[h] == s[h]
    ensures r.Success? ==> r.value[group][i] == s[group][j] && r.value[group][j] == s[group][i]
    ensures r.Success? ==> forall t :: 0 <= t < |s[group]| && t != i && t != j ==> r.value[group][t] == s[group][t]
  {
    if inst.nbGroups == 0 || inst.nbSlots == 0 then Failure(EmptyRange)
    else if |s| <= group || |s[group]| <= i || |s[group]| <= j then Failure(IndexOutOfRange)
    else Success(Move(s, group, i, j))
  }

  /** A random neighbour is always one of the listed neighbours: `s` itself
      when both draws pick the same slot, the transposition of the ordered
      pair otherwise. */
  lemma RandomNeighborListed(inst: Timetable, s: seq<seq<nat>>, group: nat, i: nat, j: nat)
    requires inst.nbGroups == 0 || inst.nbSlots == 0 || (group < inst.nbGroups && i < inst.nbSlots && j < inst.nbSlots)
    requires Shaped(inst, s)
    ensures RandomNeighbor(inst, s, group, i, j).Success? ==> RandomNeighbor(inst, s, group, i, j).value in AllNeighbors(inst, s)
  {
    var res := RandomNeighbor(inst, s, group, i, j);
    if res.Success? {
      var r := res.value;
      var n := inst.nbSlots;
      if i == j {
        assert r[group] == s[group];
        assert r == s;
      } else {
        var lo, hi := if i < j then i else j, if i < j then j else i;
        SwapSymmetric(s[group], i, j);
        assert r == Move(s, group, lo, hi);
        PairsFacts(n);
        assert (lo, hi) in Pairs(n);
        var k :| 0 <= k < |Pairs(n)| && Pairs(n)[k] == (lo, hi);
        NeighborAt(inst, s, group, k);
      }
    }
  }

  /** The smallest instance: one slot, professor and group. It is accepted,
      its allocation is `[[1]]`, every random solution is `[[1]]`, and that
      solution has no collision. */
  lemma SingleSlot()
    ensures New(1, 1, 1, 1, 1, 1) == Success(Timetable(1, 1, 1, 1, 1, 1, [[1]]))
    ensures forall draws :: RowDraws(Timetable(1, 1, 1, 1, 1, 1, [[1]]), draws) ==>
      RandomSolution(Timetable(1, 1, 1, 1, 1, 1, [[1]]), draws) == [[1]]
    ensures Collisions(Timetable(1, 1, 1, 1, 1, 1, [[1]]), [[1]]) == Success(0)
  {
    var inst := Timetable(1, 1, 1, 1, 1, 1, [[1]]);
    assert ToBeAffected(1, 1) == [1];
    assert Allocate(1, 1, 1, 1)[0] == [1];
    assert Allocate(1, 1, 1, 1) == [[1]];
    forall draws | RowDraws(inst, draws)
      ensures RandomSolution(inst, draws) == [[1]]
    {
      assert Cycle<nat>(1, [1]) == [1];
      assert UnshuffledRow(inst, 0) == [1];
      assert draws[0] == [];
    }
    assert Column<nat>([[1]], 0) == [1];
  }

  /** As written, `assert_solution` rejects the single-slot instance's only
      solution, because it demands three classes per professor where the
      instance asks for one; the validator that uses `nb_course_per_prof`
      accepts it. */
  lemma AssertSolutionRejectsSingleSlot()
    ensures AssertSolution(Timetable(1, 1, 1, 1, 1, 1, [[1]]), [[1]]) == Failure(WrongCount(0, 1))
    ensures CheckSolution(Timetable(1, 1, 1, 1, 1, 1, [[1]]), [[1]]) == Success(())
  {
    var inst := Timetable(1, 1, 1, 1, 1, 1, [[1]]);
    var s: seq<seq<nat>> := [[1]];
    assert s[0][..1] == [1];
    assert multiset([1])[1] == 1;
    assert CheckSlots([1], [1], 1, 0, 0) == Success(());
  }
}
