/** Lists that keep their order in a `sort` column: shifting a range of rows to move one of them,
    and the reject causes, whose target position is clamped and whose deletions leave gaps. */
module SortOrder {

  type Id = nat

  /** The sort values of the rows of one list. */
  type Sorts = map<Id, int>

  ghost predicate Distinct(sorts: Sorts) {
    forall j, k :: j in sorts && k in sorts && j != k ==> sorts[j] != sorts[k]
  }

  /** The range update: rows between the two positions give way by one. */
  function Shift(s: int, from: int, to: int): int {
    if to < from && to <= s < from then s + 1
    else if from < to && from < s <= to then s - 1
    else s
  }

  /** The range update, followed by the update of the moved row. */
  function Moved(sorts: Sorts, id: Id, to: int): Sorts
    requires id in sorts
  {
    map k | k in sorts :: if k == id then to else Shift(sorts[k], sorts[id], to)
  }

  /** A sort between the two positions gives way by one, towards the position left. */
  ghost predicate GivesWay(before: int, from: int, to: int, after: int) {
    && (to <= before < from ==> after == before + 1)
    && (from < before <= to ==> after == before - 1)
    && (!(to <= before < from) && !(from < before <= to) ==> after == before)
  }

  lemma ShiftBack(s: int, from: int, to: int)
    requires s != from
    ensures Shift(Shift(s, from, to), to, from) == s
  {
  }

  lemma NoMove(sorts: Sorts, id: Id)
    requires id in sorts
    ensures Moved(sorts, id, sorts[id]) == sorts
  {
  }

  /** Does any other row have the sort of this one? */
  predicate Shared(sorts: Sorts, id: Id)
    requires id in sorts
  {
    exists k :: k in sorts && k != id && sorts[k] == sorts[id]
  }

  /** However many gaps there are, distinct sorts stay distinct. */
  lemma MoveKeepsDistinct(sorts: Sorts, id: Id, to: int)
    requires id in sorts && Distinct(sorts)
    ensures Distinct(Moved(sorts, id, to))
  {
    var after := Moved(sorts, id, to);
    forall j, k | j in after && k in after && j != k
      ensures after[j] != after[k]
    {
      assert sorts[j] != sorts[k] && (j != id ==> sorts[j] != sorts[id]) && (k != id ==> sorts[k] != sorts[id]);
    }
  }

  /** The other rows keep their order, whether or not sorts are distinct or without gaps, as
      long as none of them has the sort of the moved row. */
  lemma MoveKeepsOrder(sorts: Sorts, id: Id, to: int, j: Id, k: Id)
    requires id in sorts && j in sorts && k in sorts && j != id && k != id
    requires sorts[j] != sorts[id] && sorts[k] != sorts[id]
    ensures var after := Moved(sorts, id, to);
            && (sorts[j] < sorts[k] <==> after[j] < after[k])
            && (sorts[j] == sorts[k] <==> after[j] == after[k])
  {
  }

  /** Moving a row and moving it back restores every row exactly when it did not move at all or
      shares its sort with no other row. */
  lemma MoveBackRestores(sorts: Sorts, id: Id, to: int)
    requires id in sorts
    ensures Moved(Moved(sorts, id, to), id, sorts[id]) == sorts <==> to == sorts[id] || !Shared(sorts, id)
  {
    var back := Moved(Moved(sorts, id, to), id, sorts[id]);
    if to != sorts[id] && Shared(sorts, id) {
      var k :| k in sorts && k != id && sorts[k] == sorts[id];
      assert back[k] != sorts[k];
    } else {
      forall k | k in sorts
        ensures back[k] == sorts[k]
      {
      }
    }
  }

  // Lists without gaps

  /** The list holds exactly these rows, numbered from 1. */
  ghost predicate Lists(sorts: Sorts, list: seq<Id>) {
    && (forall k :: k in sorts <==> k in list)
    && forall i :: 0 <= i < |list| ==> sorts[list[i]] == i + 1
  }

  /** Take the element at i out and insert it at j. */
  function Reinsert(list: seq<Id>, i: nat, j: nat): (r: seq<Id>)
    requires i < |list| && j < |list|
    ensures |r| == |list|
  {
    var rest := list[..i] + list[i + 1..];
    rest[..j] + [list[i]] + rest[j..]
  }

  lemma ReinsertAt(list: seq<Id>, i: nat, j: nat, k: nat)
    requires i < |list| && j < |list| && k < |list|
    ensures var p := if k == i then j else Shift(k, i, j); 0 <= p < |list| && Reinsert(list, i, j)[p] == list[k]
  {
  }

  lemma ReinsertHas(list: seq<Id>, i: nat, j: nat, p: nat)
    requires i < |list| && j < |list| && p < |list|
    ensures var k := if p == j then i else Shift(p, j, i); 0 <= k < |list| && Reinsert(list, i, j)[p] == list[k]
  {
  }

  /** On sorts 1..n a move takes the row out of the list and inserts it at the target, and the
      sorts are 1..n again. */
  lemma MoveReinserts(sorts: Sorts, list: seq<Id>, i: nat, j: nat)
    requires Lists(sorts, list) && i < |list| && j < |list|
    ensures Lists(Moved(sorts, list[i], j + 1), Reinsert(list, i, j))
  {
    var after, r := Moved(sorts, list[i], j + 1), Reinsert(list, i, j);
    hide Reinsert;
    forall p | 0 <= p < |r|
      ensures r[p] in after && after[r[p]] == p + 1
    {
      ReinsertHas(list, i, j, p);
      var k := if p == j then i else Shift(p, j, i);
      assert r[p] == list[k] && sorts[list[k]] == k + 1;
    }
    forall id | id in after
      ensures id in r
    {
      var k :| 0 <= k < |list| && list[k] == id;
      ReinsertAt(list, i, j, k);
    }
  }

  // The clamp

  ghost predicate IsMax(sorts: Sorts, m: int) {
    (exists k :: k in sorts && sorts[k] == m) && forall k :: k in sorts ==> sorts[k] <= m
  }

  function Clamp(newSort: int, max: int): int {
    var least := if newSort < max then newSort else max;
    if least < 1 then 1 else least
  }

  /** Clamped moves undo each other exactly when, besides, the old position is not beyond what
      the clamp allows on the way back: with gaps the last row may not find its place again. */
  lemma ClampedMoveBackRestores(sorts: Sorts, id: Id, newSort: int, max: int, maxAfter: int)
    requires id in sorts && IsMax(sorts, max) && IsMax(Moved(sorts, id, Clamp(newSort, max)), maxAfter)
    ensures var from, to := sorts[id], Clamp(newSort, max);
            var after := Moved(sorts, id, to);
            Moved(after, id, Clamp(from, maxAfter)) == sorts
            <==> && from >= 1
                 && (to == from
                     || (!Shared(sorts, id)
                         && (from < to || exists k :: k in sorts && k != id && sorts[k] >= from - 1)))
  {
    var from, to := sorts[id], Clamp(newSort, max);
    var after := Moved(sorts, id, to);
    var back := Moved(after, id, Clamp(from, maxAfter));
    var found := exists k :: k in sorts && k != id && sorts[k] >= from - 1;
    if Clamp(from, maxAfter) != from {
      assert back[id] != sorts[id];
      assert from < 1 || maxAfter < from;
      assert from >= 1 ==> after[id] == to < from;
      forall k | k in sorts && k != id && from >= 1
        ensures sorts[k] < from - 1
      {
        assert after[k] <= maxAfter;
      }
    } else {
      assert from >= 1;
      MoveBackRestores(sorts, id, to);
      assert to < from ==> maxAfter >= from;
      if to < from {
        var top :| top in after && after[top] == maxAfter;
        assert top != id && sorts[top] >= from - 1;
      }
    }
  }

  /** Sorts {1, 5}: the last row moved to the front comes back to 2, not to 5. */
  lemma GapsBreakMovingBack()
    ensures var sorts: Sorts := map[7 := 1, 8 := 5];
            var there := Moved(sorts, 8, Clamp(1, 5));
            && IsMax(sorts, 5) && IsMax(there, 2)
            && Moved(there, 8, Clamp(5, 2)) == map[7 := 1, 8 := 2] != sorts
  {
    var sorts: Sorts := map[7 := 1, 8 := 5];
    var there := Moved(sorts, 8, Clamp(1, 5));
    assert there == map[7 := 2, 8 := 1];
    assert sorts[8] == 5 && there[7] == 2;
    assert Moved(there, 8, Clamp(5, 2)) == map[7 := 1, 8 := 2];
    assert map[7 := 1, 8 := 2][8] != sorts[8];
  }

  /** On sorts 1..n the clamp keeps the target inside, and moving back always restores. */
  lemma ClampedMoveOnList(sorts: Sorts, list: seq<Id>, i: nat, newSort: int, max: int)
    requires Lists(sorts, list) && i < |list| && IsMax(sorts, max)
    ensures max == |list|
    ensures var j := Clamp(newSort, max) - 1;
            && 0 <= j < |list|
            && Lists(Moved(sorts, list[i], j + 1), Reinsert(list, i, j))
            && Moved(Moved(sorts, list[i], j + 1), list[i], Clamp(i + 1, max)) == sorts
  {
    hide Moved, Reinsert, IsMax, Lists, Shared;
    MaxOfList(sorts, list, max);
    ListedOnce(sorts, list, i);
    var j := Clamp(newSort, max) - 1;
    MoveReinserts(sorts, list, i, j);
    MoveBackRestores(sorts, list[i], j + 1);
  }

  lemma MaxOfList(sorts: Sorts, list: seq<Id>, max: int)
    requires Lists(sorts, list) && list != [] && IsMax(sorts, max)
    ensures max == |list|
  {
    var last := list[|list| - 1];
    assert last in list && sorts[last] == |list|;
  }

  lemma ListedOnce(sorts: Sorts, list: seq<Id>, i: nat)
    requires Lists(sorts, list) && i < |list|
    ensures list[i] in sorts && sorts[list[i]] == i + 1 && !Shared(sorts, list[i])
  {
    assert list[i] in list;
    forall k | k in sorts && k != list[i]
      ensures sorts[k] != i + 1
    {
      var p :| 0 <= p < |list| && list[p] == k;
    }
  }

  method MaxSort(sorts: Sorts) returns (none: bool, max: int)
    ensures none <==> sorts == map[]
    ensures !none ==> IsMax(sorts, max)
  {
    none, max := true, 0;
    var rest := sorts.Keys;
    while rest != {}
      invariant rest <= sorts.Keys && (none <==> rest == sorts.Keys)
      invariant !none ==> (exists k :: k in sorts && sorts[k] == max) && forall k :: k in sorts.Keys - rest ==>
          sorts[k] <= max
    {
      var k :| k in rest;
      rest := rest - {k};
      if none || sorts[k] > max {
        none, max := false, sorts[k];
      }
    }
    assert none ==> sorts == map[];
  }

  /** One more than the largest, or 1. */
  method NextSort(sorts: Sorts) returns (next: int)
    ensures if sorts == map[] then next == 1 else IsMax(sorts, next - 1)
  {
    var none, max := MaxSort(sorts);
    next := (if none then 0 else max) + 1;
  }

  // New and deleted rows

  /** A row after the last one: sorts stay distinct, and 1..n becomes 1..n+1. */
  lemma AppendExtends(sorts: Sorts, id: Id, next: int)
    requires id !in sorts
    requires if sorts == map[] then next == 1 else IsMax(sorts, next - 1)
    ensures Distinct(sorts) ==> Distinct(sorts[id := next])
    ensures forall list :: Lists(sorts, list) ==> Lists(sorts[id := next], list + [id])
  {
    forall list | Lists(sorts, list)
      ensures Lists(sorts[id := next], list + [id])
    {
      if list != [] {
        var last := list[|list| - 1];
        assert last in list && sorts[last] == |list|;
        var top :| top in sorts && sorts[top] == next - 1;
        assert top in list;
      } else {
        assert sorts == map[];
      }
      assert next == |list| + 1;
      assert forall k :: k in list + [id] <==> k in list || k == id;
      assert forall k :: k in list ==> k in sorts;
    }
  }

  /** Deleting a row of 1..n leaves a gap, unless it was the last one. */
  lemma DeleteLeavesGap(sorts: Sorts, list: seq<Id>, i: nat)
    requires Lists(sorts, list) && i < |list|
    ensures (exists rest :: Lists(sorts - {list[i]}, rest)) <==> i == |list| - 1
  {
    var after := sorts - {list[i]};
    assert forall k :: k in list ==> k in sorts;
    if i == |list| - 1 {
      var rest := list[..i];
      assert list == rest + [list[i]];
      forall p | 0 <= p < |rest|
        ensures rest[p] in after
      {
        assert rest[p] == list[p] && list[p] in list && sorts[list[p]] == p + 1 && sorts[list[i]] == i + 1;
      }
      assert Lists(after, rest);
    } else {
      var last := list[|list| - 1];
      assert last in list && sorts[last] == |list| && sorts[list[i]] == i + 1;
      assert forall k :: k in after ==> k in list && after[k] != i + 1;
      assert last in after;
      forall rest
        ensures !Lists(after, rest)
      {
        assert i < |rest| ==> rest[i] in rest;
      }
    }
  }

  // Reject causes

  datatype Cause = Cause(open: bool, name: string, sort: int)

  function OpenSorts(rows: map<Id, Cause>): Sorts {
    map k | k in rows && rows[k].open :: rows[k].sort
  }

  lemma IdsOfOpen(rows: map<Id, Cause>, id: Id)
    ensures id in OpenSorts(rows) <==> id in rows && rows[id].open
    ensures id in OpenSorts(rows) ==> OpenSorts(rows)[id] == rows[id].sort && OpenSorts(rows) != map[]
  {
  }

  datatype Outcome = Done(id: Id) | NoChange | NotFound | NameExists

  /** No two open causes have names that agree in lower case. */
  ghost predicate NamesDistinct(rows: map<Id, Cause>, lower: string -> string) {
    forall j, k :: j in rows && k in rows && j != k && rows[j].open && rows[k].open
      ==> lower(rows[j].name) != lower(rows[k].name)
  }

  /** Rows that differ in nothing but the sorts of the open ones. */
  ghost predicate SameButSorts(before: map<Id, Cause>, after: map<Id, Cause>) {
    && after.Keys == before.Keys
    && forall k :: k in after ==>
        && after[k].open == before[k].open && after[k].name == before[k].name
        && (!after[k].open ==> after[k] == before[k])
  }

  lemma SortsKeepNames(before: map<Id, Cause>, after: map<Id, Cause>, lower: string -> string)
    requires SameButSorts(before, after) && NamesDistinct(before, lower)
    ensures NamesDistinct(after, lower)
  {
  }

  /** The largest sort of an open row. */
  ghost predicate IsLast(rows: map<Id, Cause>, max: int) {
    && (exists k :: k in rows && rows[k].open && rows[k].sort == max)
    && (forall k :: k in rows && rows[k].open ==> rows[k].sort <= max)
  }

  /** The row stands at the target, the open rows between give way, and nothing else changes. */
  ghost predicate Placed(before: map<Id, Cause>, after: map<Id, Cause>, id: Id, target: int)
    requires id in before
  {
    && SameButSorts(before, after) && id in after && after[id].sort == target
    && forall k :: k in after && k != id && after[k].open ==>
         GivesWay(before[k].sort, before[id].sort, target, after[k].sort)
  }

  lemma MovedIsPlaced(before: map<Id, Cause>, after: map<Id, Cause>, id: Id, target: int)
    requires id in before && before[id].open && SameButSorts(before, after)
    requires OpenSorts(after) == Moved(OpenSorts(before), id, target)
    ensures Placed(before, after, id, target)
  {
    forall k | k in after && after[k].open
      ensures k in OpenSorts(before) && OpenSorts(after)[k] == after[k].sort
    {
    }
  }

  lemma LastIsMax(rows: map<Id, Cause>, max: int)
    ensures IsMax(OpenSorts(rows), max) <==> IsLast(rows, max)
    ensures OpenSorts(rows) == map[] <==> forall k :: k in rows ==> !rows[k].open
  {
    assert forall k :: k in OpenSorts(rows) <==> k in rows && rows[k].open;
  }

  /** UPDATE ... SET sort = sort + step of the open rows in a range. */
  function AddToRange(rows: map<Id, Cause>, low: int, high: int, step: int): (r: map<Id, Cause>)
    ensures r.Keys == rows.Keys
  {
    map k | k in rows ::
      if rows[k].open && low <= rows[k].sort <= high then Cause(true, rows[k].name, rows[k].sort + step) else rows[k]
  }

  function WithSort(rows: map<Id, Cause>, id: Id, sort: int): (r: map<Id, Cause>)
    requires id in rows
    ensures r.Keys == rows.Keys
  {
    rows[id := Cause(rows[id].open, rows[id].name, sort)]
  }

  function TwoUpdates(rows: map<Id, Cause>, id: Id, to: int): map<Id, Cause>
    requires id in rows
  {
    var from := rows[id].sort;
    if to < from then WithSort(AddToRange(rows, to, from - 1, 1), id, to)
    else WithSort(AddToRange(rows, from + 1, to, -1), id, to)
  }

  lemma TwoUpdatesAt(rows: map<Id, Cause>, id: Id, to: int, k: Id)
    requires id in rows && k in rows
    ensures TwoUpdates(rows, id, to).Keys == rows.Keys
    ensures TwoUpdates(rows, id, to)[k] ==
            Cause(rows[k].open, rows[k].name,
                  if k == id then to else if rows[k].open then Shift(rows[k].sort, rows[id].sort, to) else rows[k].sort)
  {
  }

  /** The two updates together move the row. */
  lemma TwoUpdatesMove(rows: map<Id, Cause>, id: Id, to: int)
    requires id in rows && rows[id].open
    ensures OpenSorts(TwoUpdates(rows, id, to)) == Moved(OpenSorts(rows), id, to)
    ensures SameButSorts(rows, TwoUpdates(rows, id, to))
  {
    hide TwoUpdates;
    var after := TwoUpdates(rows, id, to);
    forall k | k in rows
      ensures after.Keys == rows.Keys
      ensures after[k].open == rows[k].open && after[k].name == rows[k].name && (!rows[k].open ==> after[k] == rows[k])
      ensures rows[k].open ==> after[k].sort == Moved(OpenSorts(rows), id, to)[k]
    {
      TwoUpdatesAt(rows, id, to, k);
    }
  }

  lemma NothingUpdated(rows: map<Id, Cause>)
    ensures SameButSorts(rows, rows)
  {
  }

  lemma DeletedLeavesSorts(rows: map<Id, Cause>, id: Id, lower: string -> string)
    requires id in rows && rows[id].open
    ensures var after := rows[id := Cause(false, rows[id].name, rows[id].sort)];
            && OpenSorts(after) == OpenSorts(rows) - {id}
            && (Distinct(OpenSorts(rows)) ==> Distinct(OpenSorts(after)))
            && (NamesDistinct(rows, lower) ==> NamesDistinct(after, lower))
  {
  }

  class RejectCauses {
    var rows: map<Id, Cause>
    var next: Id
    const lower: string -> string
    const trim: string -> string

    ghost predicate Valid()
      reads this
    {
      && (forall k :: k in rows ==> k < next)
      && Distinct(OpenSorts(rows)) && NamesDistinct(rows, lower)
    }

    constructor (lower: string -> string, trim: string -> string)
      ensures Valid() && rows == map[] && this.lower == lower && this.trim == trim
    {
      rows, next, this.lower, this.trim := map[], 0, lower, trim;
    }

    method NameIsTaken(name: string, except: set<Id>) returns (taken: bool)
      ensures taken <==> exists k :: k in rows && rows[k].open && k !in except && lower(rows[k].name) == lower(name)
    {
      taken := exists k :: k in rows && rows[k].open && k !in except && lower(rows[k].name) == lower(name);
    }

    method Create(name: string) returns (outcome: Outcome)
      requires Valid()
      modifies this
      ensures Valid()
      ensures outcome.NameExists? <==>
          exists k :: k in old(rows) && old(rows)[k].open && lower(old(rows)[k].name) == lower(trim(name))
      ensures outcome.NameExists? ==> rows == old(rows)
      ensures !outcome.NameExists? ==>
                && outcome.Done? && outcome.id !in old(rows) && outcome.id in rows
                && rows == old(rows)[outcome.id := Cause(true, trim(name), rows[outcome.id].sort)]
                && OpenSorts(rows) == OpenSorts(old(rows))[outcome.id := rows[outcome.id].sort]
                && if forall k :: k in old(rows) ==> !old(rows)[k].open then rows[outcome.id].sort == 1
                   else IsLast(old(rows), rows[outcome.id].sort - 1)
    {
      var taken := NameIsTaken(trim(name), {});
      if taken {
        return NameExists;
      }
      var sort := NextSort(OpenSorts(rows));
      ghost var sorts := OpenSorts(rows);
      assert next !in rows;
      LastIsMax(rows, sort - 1);
      AppendExtends(sorts, next, sort);
      outcome := Done(next);
      rows := rows[next := Cause(true, trim(name), sort)];
      next := next + 1;
      assert OpenSorts(rows) == sorts[outcome.id := sort];
    }

    method Update(id: Id, name: string) returns (outcome: Outcome)
      requires Valid()
      modifies this
      ensures Valid()
      ensures outcome.NotFound? <==> !(id in old(rows) && old(rows)[id].open)
      ensures outcome.NameExists? <==>
                && id in old(rows) && old(rows)[id].open
                && exists k :: k in old(rows) && old(rows)[k].open && k != id
                     && lower(old(rows)[k].name) == lower(trim(name))
      ensures if outcome == Done(id) then rows == old(rows)[id := Cause(true, trim(name), old(rows)[id].sort)]
              else (outcome.NotFound? || outcome.NameExists?) && rows == old(rows)
    {
      if id !in rows || !rows[id].open {
        return NotFound;
      }
      var taken := NameIsTaken(trim(name), {id});
      if taken {
        return NameExists;
      }
      ghost var sorts := OpenSorts(rows);
      rows := rows[id := Cause(true, trim(name), rows[id].sort)];
      assert OpenSorts(rows) == sorts;
      outcome := Done(id);
    }

    /** Moves a cause to the clamped position; everything but the open sorts stays. */
    method UpdateSort(id: Id, newSort: int) returns (outcome: Outcome, ghost target: int)
      requires Valid()
      modifies this`rows
      ensures Valid()
      ensures SameButSorts(old(rows), rows)
      ensures outcome.NotFound? <==> !(id in old(rows) && old(rows)[id].open)
      ensures outcome.NotFound? ==> rows == old(rows)
      ensures !outcome.NotFound? ==>
                && Placed(old(rows), rows, id, target)
                && (exists max :: IsLast(old(rows), max)
                      && (1 <= newSort <= max ==> target == newSort)
                      && (1 <= max < newSort ==> target == max)
                      && (newSort < 1 || max < 1 ==> target == 1))
                && OpenSorts(rows) == Moved(OpenSorts(old(rows)), id, target)
                && outcome == if target == old(rows)[id].sort then NoChange else Done(id)
    {
      hide OpenSorts, Moved, SameButSorts, NamesDistinct, Distinct, AddToRange, WithSort, IsMax, IsLast, Placed;
      target := 0;
      NothingUpdated(rows);
      IdsOfOpen(rows, id);
      if id !in rows || !rows[id].open {
        return NotFound, target;
      }
      ghost var before, sorts := rows, OpenSorts(rows);
      var none, max := MaxSort(OpenSorts(rows));
      LastIsMax(rows, max);
      var to := Clamp(newSort, max);
      var from := rows[id].sort;
      target := to;
      MoveKeepsDistinct(sorts, id, to);
      TwoUpdatesMove(rows, id, to);
      if to == from {
        NoMove(sorts, id);
        MovedIsPlaced(before, rows, id, to);
        return NoChange, target;
      }
      if to < from {
        rows := AddToRange(rows, to, from - 1, 1);
      } else {
        rows := AddToRange(rows, from + 1, to, -1);
      }
      rows := WithSort(rows, id, to);
      SortsKeepNames(before, rows, lower);
      MovedIsPlaced(before, rows, id, to);
      outcome := Done(id);
    }

    method Delete(id: Id) returns (outcome: Outcome)
      requires Valid()
      modifies this`rows
      ensures Valid()
      ensures outcome.NotFound? <==> !(id in old(rows) && old(rows)[id].open)
      ensures outcome.NotFound? ==> rows == old(rows)
      ensures !outcome.NotFound? ==>
                && outcome == Done(id) && OpenSorts(rows) == OpenSorts(old(rows)) - {id}
                && rows == old(rows)[id := Cause(false, old(rows)[id].name, old(rows)[id].sort)]
    {
      if id !in rows || !rows[id].open {
        return NotFound;
      }
      DeletedLeavesSorts(rows, id, lower);
      hide OpenSorts, NamesDistinct, Distinct;
      rows := rows[id := Cause(false, rows[id].name, rows[id].sort)];
      outcome := Done(id);
    }
  }
}
