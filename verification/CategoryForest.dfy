/** Phone categories and problem categories: tables whose rows name a parent row.  The guards of
    create and delete keep them forests in which everything open hangs under open rows. */
module CategoryForest {
  import opened Wrappers

  type Id = nat

  datatype Language = Uz | Ru | En

  datatype Names = Names(uz: string, ru: string, en: string) {
    function Get(language: Language): string {
      match language
      case Uz => uz
      case Ru => ru
      case En => en
    }
  }

  datatype Category = Category(parent: Option<Id>, open: bool, active: bool, sort: int, names: Names)

  type Table = map<Id, Category>

  /** Every parent exists and is older than its child. */
  ghost predicate Forest(t: Table) {
    forall c :: c in t && t[c].parent.Some? ==> t[c].parent.value in t && t[c].parent.value < c
  }

  ghost predicate OpenUnderOpen(t: Table) {
    forall c :: c in t && t[c].open && t[c].parent.Some? ==> t[c].parent.value in t && t[t[c].parent.value].open
  }

  /** No two rows under the same parent, open or deleted, have the same sort. */
  ghost predicate SortsDistinct(t: Table) {
    forall a, b :: a in t && b in t && a != b && t[a].parent == t[b].parent ==> t[a].sort != t[b].sort
  }

  ghost predicate Sound(t: Table) {
    Forest(t) && OpenUnderOpen(t) && SortsDistinct(t)
  }

  // Breadcrumbs

  /** The recursive step of the breadcrumb query: from parent to parent while they are open. */
  function Climb(t: Table, p: Option<Id>): seq<Id>
    requires Forest(t)
    decreases if p.Some? then p.value + 1 else 0
  {
    if p.None? || p.value !in t || !t[p.value].open then [] else Climb(t, t[p.value].parent) + [p.value]
  }

  /** The rows in the order of descending depth; the starting row may be deleted. */
  function Breadcrumb(t: Table, id: Id): seq<Id>
    requires Forest(t)
  {
    if id !in t then [] else Climb(t, t[id].parent) + [id]
  }

  /** From a root down to the row, each row under the one before. */
  ghost predicate IsAncestorPath(t: Table, path: seq<Id>, id: Id) {
    && path != [] && path[|path| - 1] == id
    && (forall i :: 0 <= i < |path| ==> path[i] in t)
    && t[path[0]].parent == None
    && forall i :: 0 < i < |path| ==> t[path[i]].parent == Some(path[i - 1])
  }

  /** Are all rows strictly above this one open? */
  ghost predicate AncestorsOpen(t: Table, id: Id)
    requires Forest(t) && id in t
    decreases id
  {
    t[id].parent.Some? ==> t[t[id].parent.value].open && AncestorsOpen(t, t[id].parent.value)
  }

  lemma AncestorPathShortens(t: Table, path: seq<Id>, id: Id)
    requires IsAncestorPath(t, path, id)
    ensures t[id].parent == None ==> path == [id]
    ensures t[id].parent.Some? ==> IsAncestorPath(t, path[..|path| - 1], t[id].parent.value)
  {
    assert |path| > 1 ==> t[path[|path| - 1]].parent == Some(path[|path| - 2]);
  }

  lemma {:induction false} AncestorPathIsUnique(t: Table, p: seq<Id>, q: seq<Id>, id: Id)
    requires IsAncestorPath(t, p, id) && IsAncestorPath(t, q, id)
    ensures p == q
    decreases |p|
  {
    AncestorPathShortens(t, p, id);
    AncestorPathShortens(t, q, id);
    assert p == p[..|p| - 1] + [id] && q == q[..|q| - 1] + [id];
    hide IsAncestorPath;
    if t[id].parent.Some? {
      AncestorPathIsUnique(t, p[..|p| - 1], q[..|q| - 1], t[id].parent.value);
    }
  }

  lemma {:induction false} BreadcrumbReachesRoot(t: Table, id: Id)
    requires Forest(t) && id in t
    ensures IsAncestorPath(t, Breadcrumb(t, id), id) <==> AncestorsOpen(t, id)
    decreases id
  {
    var crumb := Breadcrumb(t, id);
    if t[id].parent.Some? {
      var up := t[id].parent.value;
      if t[up].open {
        BreadcrumbReachesRoot(t, up);
        var above := Breadcrumb(t, up);
        assert crumb == above + [id];
        if IsAncestorPath(t, crumb, id) {
          assert forall i :: 0 <= i < |above| ==> above[i] == crumb[i];
          assert IsAncestorPath(t, above, up);
        }
      } else {
        assert crumb == [id];
      }
    }
  }

  lemma {:induction false} OpenHasOpenAncestors(t: Table, id: Id)
    requires Forest(t) && OpenUnderOpen(t) && id in t && t[id].open
    ensures AncestorsOpen(t, id)
    decreases id
  {
    if t[id].parent.Some? {
      OpenHasOpenAncestors(t, t[id].parent.value);
    }
  }

  /** For an open category the query yields the one path from the root to it, all of it open. */
  lemma BreadcrumbIsAncestorPath(t: Table, id: Id)
    requires Sound(t) && id in t && t[id].open
    ensures IsAncestorPath(t, Breadcrumb(t, id), id)
    ensures forall path :: IsAncestorPath(t, path, id) ==> path == Breadcrumb(t, id)
    ensures forall c :: c in Breadcrumb(t, id) ==> c in t && t[c].open
  {
    OpenHasOpenAncestors(t, id);
    BreadcrumbReachesRoot(t, id);
    var crumb := Breadcrumb(t, id);
    forall path | IsAncestorPath(t, path, id)
      ensures path == crumb
    {
      AncestorPathIsUnique(t, path, crumb, id);
    }
    ClimbIsOpen(t, t[id].parent);
  }

  lemma {:induction false} ClimbIsOpen(t: Table, p: Option<Id>)
    requires Forest(t)
    ensures forall c :: c in Climb(t, p) ==> c in t && t[c].open
    decreases if p.Some? then p.value + 1 else 0
  {
    if p.Some? && p.value in t && t[p.value].open {
      ClimbIsOpen(t, t[p.value].parent);
    }
  }

  // Descendants

  predicate Below(t: Table, top: Id, c: Id)
    requires Forest(t) && c in t
    decreases c
  {
    t[c].parent.Some? && (t[c].parent.value == top || Below(t, top, t[c].parent.value))
  }

  ghost predicate NoRepeats(s: seq<Id>) {
    forall i, j :: 0 <= i < j < |s| ==> s[i] != s[j]
  }

  /** Does the row hang under the top row or, when open, under one of the rows found? */
  ghost predicate HangsUnder(t: Table, top: Id, done: set<Id>, c: Id)
    requires c in t
  {
    t[c].parent == Some(top) || (t[c].open && t[c].parent.Some? && t[c].parent.value in done)
  }

  /** One level of the query so far: the rows found hang under the top row or, when open, under
      a row of an earlier level, and no such row is missing. */
  ghost predicate LevelsDone(t: Table, top: Id, done: set<Id>, work: set<Id>) {
    && done !! work && top !in work
    && (forall c :: c in done + work ==> c in t && c > top && HangsUnder(t, top, done, c))
    && (forall c :: c in t && HangsUnder(t, top, done, c) ==> c in done + work)
  }

  function NextLevel(t: Table, work: set<Id>): set<Id> {
    set c | c in t && t[c].open && t[c].parent.Some? && t[c].parent.value in work
  }

  lemma LevelDone(t: Table, top: Id, done: set<Id>, work: set<Id>)
    requires Forest(t) && LevelsDone(t, top, done, work) && top !in done
    ensures LevelsDone(t, top, done + work, NextLevel(t, work))
  {
    forall c | c in NextLevel(t, work)
      ensures c !in done + work && c > top
    {
    }
  }

  /** The query's rows are the open rows below the top row and its direct children. */
  lemma {:induction false} LevelsAreDescendants(t: Table, top: Id, done: set<Id>, c: Id)
    requires Forest(t) && OpenUnderOpen(t) && LevelsDone(t, top, done, {}) && c in t
    ensures c in done <==> t[c].parent == Some(top) || (t[c].open && Below(t, top, c))
    decreases c
  {
    if t[c].parent.Some? {
      LevelsAreDescendants(t, top, done, t[c].parent.value);
    }
  }

  method ToSeq(ids: set<Id>) returns (list: seq<Id>)
    ensures NoRepeats(list) && forall c :: c in list <==> c in ids
  {
    list := [];
    var rest := ids;
    while rest != {}
      invariant rest <= ids && NoRepeats(list) && forall c :: c in list <==> c in ids - rest
    {
      var c :| c in rest;
      rest := rest - {c};
      assert forall i :: 0 <= i < |list| ==> list[i] in list;
      list := list + [c];
    }
  }

  lemma AppendedNoRepeats(a: seq<Id>, b: seq<Id>, done: set<Id>, work: set<Id>)
    requires NoRepeats(a) && NoRepeats(b) && done !! work
    requires (forall c :: c in a <==> c in done) && (forall c :: c in b <==> c in work)
    ensures NoRepeats(a + b) && forall c :: c in a + b <==> c in done + work
  {
    forall i, j | 0 <= i < j < |a + b|
      ensures (a + b)[i] != (a + b)[j]
    {
      assert i < |a| ==> (a + b)[i] in a;
      assert j >= |a| ==> (a + b)[j] in b;
    }
  }

  /** The recursive query, level by level.  It ends because no row turns up twice. */
  method GetDescendantIds(t: Table, id: Id) returns (ids: seq<Id>)
    requires Sound(t)
    ensures NoRepeats(ids)
    ensures forall c :: c in ids <==> c in t && (t[c].parent == Some(id) || (t[c].open && Below(t, id, c)))
  {
    hide NextLevel, Below, SortsDistinct;
    var work := set c | c in t && t[c].parent == Some(id);
    ghost var done: set<Id> := {};
    ids := [];
    while work != {}
      invariant LevelsDone(t, id, done, work) && id !in done
      invariant NoRepeats(ids) && forall c :: c in ids <==> c in done
      decreases |t.Keys - done|
    {
      var level := ToSeq(work);
      AppendedNoRepeats(ids, level, done, work);
      LevelDone(t, id, done, work);
      ids := ids + level;
      Shrinks(t.Keys, done, work);
      done := done + work;
      work := NextLevel(t, work);
    }
    forall c | c in t
      ensures c in done <==> t[c].parent == Some(id) || (t[c].open && Below(t, id, c))
    {
      LevelsAreDescendants(t, id, done, c);
    }
  }

  lemma Shrinks(all: set<Id>, done: set<Id>, work: set<Id>)
    requires work != {} && work <= all && done !! work
    ensures |all - (done + work)| < |all - done|
  {
    assert all - done == (all - (done + work)) + work;
  }
}
