/** The services of phone categories and problem categories: what create, update, updateSort and
    delete check, what they write, and what they keep in every order of calls. */
module CategoryCatalog {
  import opened Wrappers
  import opened CategoryForest
  import SortOrder

  // Names

  /** The names an update brings; those left out stay. */
  datatype Patch = Patch(uz: Option<string>, ru: Option<string>, en: Option<string>, active: Option<bool>) {
    function Get(language: Language): Option<string> {
      match language
      case Uz => uz
      case Ru => ru
      case En => en
    }
  }

  function Default<T>(o: Option<T>, otherwise: T): T {
    if o.Some? then o.value else otherwise
  }

  function Patched(c: Category, p: Patch): Category {
    Category(c.parent, c.open, Default(p.active, c.active), c.sort,
             Names(Default(p.uz, c.names.uz), Default(p.ru, c.names.ru), Default(p.en, c.names.en)))
  }

  /** The fields that the patch brings are taken over, the others stay. */
  ghost predicate IsPatched(before: Category, p: Patch, after: Category) {
    && after.parent == before.parent && after.open == before.open && after.sort == before.sort
    && (if p.active == None then after.active == before.active else p.active == Some(after.active))
    && (if p.uz == None then after.names.uz == before.names.uz else p.uz == Some(after.names.uz))
    && (if p.ru == None then after.names.ru == before.names.ru else p.ru == Some(after.names.ru))
    && (if p.en == None then after.names.en == before.names.en else p.en == Some(after.names.en))
  }

  lemma PatchedIs(c: Category, p: Patch)
    ensures IsPatched(c, p, Patched(c, p))
  {
  }

  lemma PatchedName(c: Category, p: Patch, language: Language)
    ensures Patched(c, p).names.Get(language) == Default(p.Get(language), c.names.Get(language))
  {
  }

  predicate OpenSiblings(t: Table, a: Id, b: Id)
    requires a in t && b in t
  {
    a != b && t[a].open && t[b].open && t[a].parent == t[b].parent
  }

  /** Do the two rows clash in a language, with `lower` the database's LOWER? */
  predicate Clash(lower: string -> string, a: Category, b: Category, language: Language) {
    lower(a.names.Get(language)) == lower(b.names.Get(language))
  }

  ghost predicate NamesDistinct(t: Table, lower: string -> string) {
    forall a, b, l :: a in t && b in t && OpenSiblings(t, a, b) ==> !Clash(lower, t[a], t[b], l)
  }

  /** What holds in every state: open siblings clash at most in a language in which one of them
      has an empty name. */
  ghost predicate NonemptyNamesDistinct(t: Table, lower: string -> string) {
    forall a, b, l :: a in t && b in t && OpenSiblings(t, a, b) && Clash(lower, t[a], t[b], l)
      ==> t[a].names.Get(l) == "" || t[b].names.Get(l) == ""
  }

  /** Is there an open row under this parent with one of these names? */
  ghost predicate NameExists(t: Table, lower: string -> string, parent: Option<Id>, names: Names) {
    exists c, l: Language :: c in t && t[c].open && t[c].parent == parent
        && lower(t[c].names.Get(l)) == lower(names.Get(l))
  }

  /** The check of an update: only names that are not empty are compared. */
  ghost predicate PatchClashes(t: Table, lower: string -> string, id: Id, p: Patch)
    requires id in t
  {
    exists c, l :: c in t && c != id && t[c].open && t[c].parent == t[id].parent
                   && p.Get(l).Some? && p.Get(l).value != "" && lower(t[c].names.Get(l)) == lower(p.Get(l).value)
  }

  /** The unique index on (name_uz, parent_id) of the open rows; null parents never collide. */
  ghost predicate IndexViolated(t: Table, id: Id, uz: string)
    requires id in t
  {
    && t[id].parent.Some?
    && exists b :: b in t && b != id && t[b].open && t[b].parent == t[id].parent && t[b].names.uz == uz
  }

  lemma InsertKeepsNames(t: Table, lower: string -> string, id: Id, c: Category)
    requires id !in t && !NameExists(t, lower, c.parent, c.names)
    ensures NonemptyNamesDistinct(t, lower) ==> NonemptyNamesDistinct(t[id := c], lower)
    ensures NamesDistinct(t, lower) ==> NamesDistinct(t[id := c], lower)
  {
  }

  lemma PatchKeepsNonemptyNames(t: Table, lower: string -> string, id: Id, p: Patch)
    requires id in t && t[id].open && !PatchClashes(t, lower, id, p) && NonemptyNamesDistinct(t, lower)
    ensures NonemptyNamesDistinct(t[id := Patched(t[id], p)], lower)
  {
    var after := t[id := Patched(t[id], p)];
    forall a, b, l | a in after && b in after && OpenSiblings(after, a, b) && Clash(lower, after[a], after[b], l)
      ensures after[a].names.Get(l) == "" || after[b].names.Get(l) == ""
    {
      PatchedName(t[id], p, l);
      hide Patched;
      assert OpenSiblings(t, a, b);
      assert Clash(lower, t[a], t[b], l) ==> t[a].names.Get(l) == "" || t[b].names.Get(l) == "";
    }
  }

  /** An update that passes the check keeps the names distinct exactly when no name it empties
      meets an open sibling whose name in that language folds to the empty one. */
  lemma PatchKeepsNames(t: Table, lower: string -> string, id: Id, p: Patch)
    requires id in t && t[id].open && !PatchClashes(t, lower, id, p) && NamesDistinct(t, lower)
    ensures NamesDistinct(t[id := Patched(t[id], p)], lower) <==>
            forall c, l :: c in t && OpenSiblings(t, id, c) && p.Get(l) == Some("") ==>
                lower(t[c].names.Get(l)) != lower("")
  {
    var after := t[id := Patched(t[id], p)];
    assert after[id].open && after[id].parent == t[id].parent;
    assert forall a, b :: a in t && b in t ==> OpenSiblings(after, a, b) == OpenSiblings(t, a, b);
    forall l
      ensures after[id].names.Get(l) == Default(p.Get(l), t[id].names.Get(l))
    {
      PatchedName(t[id], p, l);
    }
    hide Patched;
    if c, l :| c in t && OpenSiblings(t, id, c) && p.Get(l) == Some("") && lower(t[c].names.Get(l)) == lower("") {
      assert OpenSiblings(after, id, c) && Clash(lower, after[id], after[c], l);
    } else {
      forall a, b, l | a in after && b in after && OpenSiblings(after, a, b)
        ensures !Clash(lower, after[a], after[b], l)
      {
        assert OpenSiblings(t, a, b) && !Clash(lower, t[a], t[b], l) && OpenSiblings(t, b, a);
      }
    }
  }

  const TWO_ROOTS: Table :=
    map[0 := Category(None, true, true, 1, Names("a", "a", "a")),
        1 := Category(None, true, true, 2, Names("b", "b", "b"))]

  /** Two roots whose Russian names are both set to the empty string. */
  lemma EmptyNamesMeet(lower: string -> string)
    requires lower("a") != lower("b")
    ensures var t := TWO_ROOTS;
            var empty := Patch(None, Some(""), None, None);
            var once := t[0 := Patched(t[0], empty)];
            var twice := once[1 := Patched(once[1], empty)];
            && Sound(t) && NamesDistinct(t, lower)
            && !PatchClashes(t, lower, 0, empty) && !PatchClashes(once, lower, 1, empty)
            && !NamesDistinct(twice, lower)
  {
    var t := TWO_ROOTS;
    var empty := Patch(None, Some(""), None, None);
    var once := t[0 := Patched(t[0], empty)];
    var twice := once[1 := Patched(once[1], empty)];
    assert OpenSiblings(twice, 0, 1) && Clash(lower, twice[0], twice[1], Ru);
    forall a, b, l: Language | a in t && b in t && OpenSiblings(t, a, b)
      ensures !Clash(lower, t[a], t[b], l)
    {
      assert t[a].names.Get(l) == (if a == 0 then "a" else "b");
    }
  }

  // Sorts

  function SiblingSorts(t: Table, parent: Option<Id>): SortOrder.Sorts {
    map c | c in t && t[c].parent == parent :: t[c].sort
  }

  function AllSorts(t: Table): SortOrder.Sorts {
    map c | c in t :: t[c].sort
  }

  function WithSort(t: Table, id: Id, sort: int): (r: Table)
    requires id in t
    ensures r.Keys == t.Keys
  {
    t[id := Category(t[id].parent, t[id].open, t[id].active, sort, t[id].names)]
  }

  /** UPDATE ... SET sort = sort + step of the siblings in a range, deleted ones included. */
  function AddToRange(t: Table, parent: Option<Id>, low: int, high: int, step: int): (r: Table)
    ensures r.Keys == t.Keys
  {
    map c | c in t ::
      if t[c].parent == parent && low <= t[c].sort <= high
      then Category(t[c].parent, t[c].open, t[c].active, t[c].sort + step, t[c].names)
      else t[c]
  }

  function TwoUpdates(t: Table, id: Id, to: int): (r: Table)
    requires id in t
    ensures r.Keys == t.Keys
  {
    var from := t[id].sort;
    if to < from then WithSort(AddToRange(t, t[id].parent, to, from - 1, 1), id, to)
    else WithSort(AddToRange(t, t[id].parent, from + 1, to, -1), id, to)
  }

  lemma TwoUpdatesAt(t: Table, id: Id, to: int, c: Id)
    requires id in t && c in t
    ensures TwoUpdates(t, id, to)[c] ==
            Category(t[c].parent, t[c].open, t[c].active,
                     if c == id then to
                     else if t[c].parent == t[id].parent then SortOrder.Shift(t[c].sort, t[id].sort, to)
                     else t[c].sort,
                     t[c].names)
  {
  }

  /** The two updates move the row among its siblings and touch no other list. */
  lemma TwoUpdatesMove(t: Table, id: Id, to: int, parent: Option<Id>)
    requires id in t
    ensures SiblingSorts(TwoUpdates(t, id, to), parent) ==
            if parent == t[id].parent then SortOrder.Moved(SiblingSorts(t, parent), id, to) else SiblingSorts(t, parent)
  {
    var after := TwoUpdates(t, id, to);
    forall c | c in t
      ensures after[c].parent == t[c].parent
      ensures after[c].sort == if c == id then to
                               else if t[c].parent == t[id].parent then SortOrder.Shift(t[c].sort, t[id].sort, to)
                               else t[c].sort
    {
      TwoUpdatesAt(t, id, to, c);
    }
    hide TwoUpdates;
    assert SiblingSorts(after, parent).Keys == SiblingSorts(t, parent).Keys;
  }

  lemma DistinctAmongSiblings(t: Table)
    ensures SortsDistinct(t) <==> forall parent :: SortOrder.Distinct(SiblingSorts(t, parent))
  {
    if forall parent :: SortOrder.Distinct(SiblingSorts(t, parent)) {
      forall a, b | a in t && b in t && a != b && t[a].parent == t[b].parent
        ensures t[a].sort != t[b].sort
      {
        assert SortOrder.Distinct(SiblingSorts(t, t[a].parent));
        assert a in SiblingSorts(t, t[a].parent) && b in SiblingSorts(t, t[a].parent);
      }
    }
  }

  /** The row stands at the target, its siblings between, deleted ones included, give way, and
      nothing else changes. */
  ghost predicate Placed(before: Table, after: Table, id: Id, to: int)
    requires id in before
  {
    && SameButSorts(before, after) && after[id].sort == to
    && forall c :: c in before && c != id ==>
         if before[c].parent == before[id].parent
         then SortOrder.GivesWay(before[c].sort, before[id].sort, to, after[c].sort)
         else after[c].sort == before[c].sort
  }

  lemma TwoUpdatesPlace(t: Table, id: Id, to: int)
    requires id in t
    ensures Placed(t, TwoUpdates(t, id, to), id, to)
  {
    hide TwoUpdates;
    forall c | c in t
      ensures var after := TwoUpdates(t, id, to)[c];
              && after == Category(t[c].parent, t[c].open, t[c].active, after.sort, t[c].names)
              && (c == id ==> after.sort == to)
              && (c != id && t[c].parent != t[id].parent ==> after.sort == t[c].sort)
              && (c != id && t[c].parent == t[id].parent ==>
                    SortOrder.GivesWay(t[c].sort, t[id].sort, to, after.sort))
    {
      TwoUpdatesAt(t, id, to, c);
    }
  }

  /** Rows that agree in everything but the sort. */
  ghost predicate SameButSorts(before: Table, after: Table) {
    && after.Keys == before.Keys
    && forall c :: c in after ==>
        after[c] == Category(before[c].parent, before[c].open, before[c].active, after[c].sort, before[c].names)
  }

  lemma TwoUpdatesKeep(t: Table, id: Id, to: int, lower: string -> string)
    requires id in t && Sound(t)
    ensures var after := TwoUpdates(t, id, to);
            && Sound(after) && SameButSorts(t, after)
            && (NonemptyNamesDistinct(t, lower) ==> NonemptyNamesDistinct(after, lower))
  {
    var after := TwoUpdates(t, id, to);
    forall c | c in t
      ensures after[c] == Category(t[c].parent, t[c].open, t[c].active, after[c].sort, t[c].names)
    {
      TwoUpdatesAt(t, id, to, c);
    }
    hide TwoUpdates;
    DistinctAmongSiblings(t);
    DistinctAmongSiblings(after);
    forall parent
      ensures SortOrder.Distinct(SiblingSorts(after, parent))
    {
      TwoUpdatesMove(t, id, to, parent);
      if parent == t[id].parent {
        SortOrder.MoveKeepsDistinct(SiblingSorts(t, parent), id, to);
      }
    }
    hide SortsDistinct, SiblingSorts;
    forall a, b | a in after && b in after && OpenSiblings(after, a, b)
      ensures OpenSiblings(t, a, b)
    {
    }
  }

  /** With no clamp, moving a category back always restores the whole table. */
  lemma MoveBackRestoresTable(t: Table, id: Id, to: int)
    requires id in t && Sound(t)
    ensures TwoUpdates(TwoUpdates(t, id, to), id, t[id].sort) == t
  {
    var there := TwoUpdates(t, id, to);
    var back := TwoUpdates(there, id, t[id].sort);
    hide TwoUpdates, SortOrder.Shift, Forest, OpenUnderOpen;
    forall c | c in t
      ensures back[c] == t[c]
    {
      if c != id && t[c].parent == t[id].parent {
        SortOrder.ShiftBack(t[c].sort, t[id].sort, to);
      }
      TwoUpdatesAt(t, id, to, c);
      TwoUpdatesAt(t, id, to, id);
      TwoUpdatesAt(there, id, t[id].sort, c);
    }
  }

  // Rows

  lemma InsertIsSound(t: Table, id: Id, c: Category)
    requires Sound(t) && (forall k :: k in t ==> k < id)
    requires c.parent.Some? ==> c.parent.value in t && t[c.parent.value].open
    requires forall k :: k in t && t[k].parent == c.parent ==> t[k].sort < c.sort
    ensures Sound(t[id := c])
  {
  }

  function Closed(c: Category): Category {
    Category(c.parent, false, c.active, c.sort, c.names)
  }

  lemma CloseIsSound(t: Table, id: Id, lower: string -> string)
    requires Sound(t) && id in t
    requires forall c :: c in t && t[c].parent == Some(id) ==> !t[c].open
    ensures Sound(t[id := Closed(t[id])])
    ensures NonemptyNamesDistinct(t, lower) ==> NonemptyNamesDistinct(t[id := Closed(t[id])], lower)
  {
  }

  /** The guard is needed: closing a row with an open child breaks the closure. */
  lemma CloseNeedsGuard(t: Table, id: Id, c: Id)
    requires Sound(t) && id in t && c in t && t[c].parent == Some(id) && t[c].open
    ensures !OpenUnderOpen(t[id := Closed(t[id])])
  {
    var after := t[id := Closed(t[id])];
    assert after[c] == t[c] && !after[id].open;
  }

  lemma PatchIsSound(t: Table, id: Id, p: Patch)
    requires Sound(t) && id in t
    ensures Sound(t[id := Patched(t[id], p)])
  {
  }

  // The two services

  /** A problem category that hangs under a phone category. */
  datatype Link = Link(phone: Id, problem: Id)

  datatype Failure = NotFound | OsTypeInactive | NameConflict | ParentInactive | ParentHasProblems
                   | HasChildren | HasProblems | ParentAndPhone | PhoneRequired | PhoneHasChildren | DatabaseError

  datatype Outcome = Created(id: Id) | Updated | NoChange | Refused(why: Failure)

  /** Exactly the open problem roots are linked, each to one existing phone category. */
  ghost predicate LinksSound(phones: Table, problems: Table, links: set<Link>) {
    && (forall l :: l in links ==> l.phone in phones && IsOpenRoot(problems, l.problem))
    && (forall p :: IsOpenRoot(problems, p) ==> exists l :: l in links && l.problem == p)
    && (forall l, m :: l in links && m in links && l.problem == m.problem ==> l == m)
  }

  predicate IsOpenRoot(t: Table, id: Id) {
    id in t && t[id].open && t[id].parent == None
  }

  ghost predicate IsOpen(t: Table, id: Id) {
    id in t && t[id].open
  }

  ghost predicate HasOpenChild(t: Table, id: Id) {
    exists c :: c in t && t[c].open && t[c].parent == Some(id)
  }

  ghost predicate HasActiveChild(t: Table, id: Id) {
    exists c :: c in t && t[c].open && t[c].active && t[c].parent == Some(id)
  }

  ghost predicate Linked(links: set<Link>, phone: Id) {
    exists l :: l in links && l.phone == phone
  }

  /** Does the phone category have an open, active problem root with one of these names? */
  ghost predicate RootNameExists(problems: Table, links: set<Link>, lower: string -> string, phone: Id, names: Names) {
    exists k, l: Language ::
      && k in links && k.phone == phone && k.problem in problems
      && problems[k.problem].parent == None && problems[k.problem].open && problems[k.problem].active
      && lower(problems[k.problem].names.Get(l)) == lower(names.Get(l))
  }

  /** The unique constraint on (name_uz, parent_id) of problem categories, deleted ones included. */
  ghost predicate ConstraintViolated(t: Table, parent: Option<Id>, uz: string) {
    parent.Some? && exists c :: c in t && t[c].parent == parent && t[c].names.uz == uz
  }

  /** Why a phone category is not created, if it is not. */
  ghost function PhoneRefusal(phones: Table, links: set<Link>, lower: string -> string, parent: Option<Id>,
                              names: Names, osTypeActive: bool): Option<Failure> {
    if !osTypeActive then Some(OsTypeInactive)
    else if NameExists(phones, lower, parent, names) then Some(NameConflict)
    else if parent.Some? && !(IsOpen(phones, parent.value) && phones[parent.value].active) then Some(ParentInactive)
    else if parent.Some? && Linked(links, parent.value) then Some(ParentHasProblems)
    else None
  }

  ghost function ProblemRefusal(phones: Table, problems: Table, links: set<Link>, lower: string -> string,
                                parent: Option<Id>, phone: Option<Id>, names: Names): Option<Failure> {
    if parent.Some? && phone.Some? then Some(ParentAndPhone)
    else if parent.None? && phone.None? then Some(PhoneRequired)
    else if parent.Some? then
      if !(IsOpen(problems, parent.value) && problems[parent.value].active) then Some(ParentInactive)
      else if NameExists(problems, lower, parent, names) then Some(NameConflict)
      else if ConstraintViolated(problems, parent, names.uz) then Some(DatabaseError)
      else None
    else
      if HasActiveChild(phones, phone.value) then Some(PhoneHasChildren)
      else if RootNameExists(problems, links, lower, phone.value, names) then Some(NameConflict)
      else if phone.value !in phones then Some(DatabaseError)
      else None
  }

  /** Is the sort one more than the largest, or 1? */
  ghost predicate IsNext(sorts: SortOrder.Sorts, next: int) {
    if sorts == map[] then next == 1 else SortOrder.IsMax(sorts, next - 1)
  }

  /** Is the sort one more than the largest of the rows in a list, deleted ones included, or 1? */
  ghost predicate ComesNext(t: Table, listed: Category -> bool, next: int) {
    && (forall c :: c in t && listed(t[c]) ==> t[c].sort < next)
    && ((forall c :: c in t ==> !listed(t[c])) ==> next == 1)
    && ((exists c :: c in t && listed(t[c])) ==> exists c :: c in t && listed(t[c]) && t[c].sort == next - 1)
  }

  lemma NextOfSiblings(t: Table, parent: Option<Id>, next: int)
    requires IsNext(SiblingSorts(t, parent), next)
    ensures ComesNext(t, (c: Category) => c.parent == parent, next)
  {
    var sorts := SiblingSorts(t, parent);
    assert forall c :: c in sorts <==> c in t && t[c].parent == parent;
  }

  lemma NextOfAll(t: Table, next: int)
    requires IsNext(AllSorts(t), next)
    ensures ComesNext(t, _ => true, next)
  {
    var sorts := AllSorts(t);
    assert forall c :: c in sorts <==> c in t;
  }

  class Catalog {
    var phones: Table
    var problems: Table
    var links: set<Link>
    var next: Id
    const lower: string -> string

    ghost predicate Valid()
      reads this
    {
      && Sound(phones) && Sound(problems)
      && (forall c :: c in phones || c in problems ==> c < next)
      && NonemptyNamesDistinct(phones, lower)
      && LinksSound(phones, problems, links)
    }

    constructor (lower: string -> string)
      ensures Valid() && phones == map[] && problems == map[] && links == {} && this.lower == lower
    {
      phones, problems, links, next, this.lower := map[], map[], {}, 0, lower;
    }

    method CreatePhone(parent: Option<Id>, names: Names, active: Option<bool>,
                       osTypeActive: bool) returns (outcome: Outcome)
      requires Valid()
      modifies this`phones, this`next
      ensures Valid()
      ensures var refusal := PhoneRefusal(old(phones), links, lower, parent, names, osTypeActive);
              if refusal.Some? then outcome == Refused(refusal.value) && phones == old(phones)
              else
                && outcome.Created? && outcome.id !in old(phones) && outcome.id in phones
                && phones == old(phones)[outcome.id := Category(parent, true,
                     if active.Some? then active.value else true, phones[outcome.id].sort, names)]
                && ComesNext(old(phones), (c: Category) => c.parent == parent, phones[outcome.id].sort)
    {
      hide Sound, NonemptyNamesDistinct, LinksSound, SiblingSorts, SortOrder.IsMax;
      if !osTypeActive {
        return Refused(OsTypeInactive);
      }
      NamesShared(phones, parent, names);
      if exists c :: c in phones && phones[c].open && phones[c].parent == parent && SharesName(phones[c].names, names) {
        return Refused(NameConflict);
      }
      if parent.Some? {
        if !(parent.value in phones && phones[parent.value].open && phones[parent.value].active) {
          return Refused(ParentInactive);
        }
        if exists l :: l in links && l.phone == parent.value {
          return Refused(ParentHasProblems);
        }
      }
      var sort := SortOrder.NextSort(SiblingSorts(phones, parent));
      var row := Category(parent, true, Default(active, true), sort, names);
      NextIsAfterSiblings(phones, parent, sort);
      NextOfSiblings(phones, parent, sort);
      InsertIsSound(phones, next, row);
      InsertKeepsNames(phones, lower, next, row);
      PhonesGrow(phones, phones[next := row], problems, links);
      outcome := Created(next);
      phones := phones[next := row];
      next := next + 1;
    }

    predicate SharesName(a: Names, b: Names) {
      lower(a.uz) == lower(b.uz) || lower(a.ru) == lower(b.ru) || lower(a.en) == lower(b.en)
    }

    lemma NamesShared(t: Table, parent: Option<Id>, names: Names)
      ensures NameExists(t, lower, parent, names) <==>
              exists c :: c in t && t[c].open && t[c].parent == parent && SharesName(t[c].names, names)
    {
      forall c | c in t
        ensures SharesName(t[c].names, names) <==> exists l: Language :: lower(t[c].names.Get(l)) == lower(names.Get(l))
      {
        EveryLanguage(lower, t[c].names, names);
      }
    }

    method UpdatePhone(id: Id, p: Patch) returns (outcome: Outcome)
      requires Valid()
      modifies this`phones
      ensures Valid()
      ensures !IsOpen(old(phones), id) ==> outcome == Refused(NotFound)
      ensures IsOpen(old(phones), id) ==>
                outcome == if PatchClashes(old(phones), lower, id, p) then Refused(NameConflict)
                           else if IndexViolated(old(phones), id, if p.uz.Some? then p.uz.value
                                                                  else old(phones)[id].names.uz)
                               then Refused(DatabaseError)
                           else Updated
      ensures !outcome.Updated? ==> phones == old(phones)
      ensures outcome.Updated? ==>
                && id in phones && phones == old(phones)[id := phones[id]]
                && IsPatched(old(phones)[id], p, phones[id])
    {
      hide Sound, NonemptyNamesDistinct, LinksSound, Patched;
      if !(id in phones && phones[id].open) {
        return Refused(NotFound);
      }
      PatchChecked(phones, id, p);
      if exists c ::
           c in phones && c != id && phones[c].open && phones[c].parent == phones[id].parent
               && MeetsName(phones[c].names, p) {
        return Refused(NameConflict);
      }
      var row := Patched(phones[id], p);
      PatchedIs(phones[id], p);
      if row.parent.Some? && exists b ::
           b in phones && b != id && phones[b].open && phones[b].parent == row.parent
               && phones[b].names.uz == row.names.uz {
        return Refused(DatabaseError);
      }
      PatchIsSound(phones, id, p);
      PatchKeepsNonemptyNames(phones, lower, id, p);
      PhonesGrow(phones, phones[id := row], problems, links);
      phones := phones[id := row];
      outcome := Updated;
    }

    predicate MeetsName(a: Names, p: Patch) {
      || (p.uz.Some? && p.uz.value != "" && lower(a.uz) == lower(p.uz.value))
      || (p.ru.Some? && p.ru.value != "" && lower(a.ru) == lower(p.ru.value))
      || (p.en.Some? && p.en.value != "" && lower(a.en) == lower(p.en.value))
    }

    lemma PatchChecked(t: Table, id: Id, p: Patch)
      requires id in t
      ensures PatchClashes(t, lower, id, p) <==>
              exists c :: c in t && c != id && t[c].open && t[c].parent == t[id].parent && MeetsName(t[c].names, p)
    {
      forall c | c in t
        ensures MeetsName(t[c].names, p) <==>
                exists l :: p.Get(l).Some? && p.Get(l).value != "" && lower(t[c].names.Get(l)) == lower(p.Get(l).value)
      {
        var n := t[c].names;
        assert p.Get(Uz) == p.uz && p.Get(Ru) == p.ru && p.Get(En) == p.en;
        assert n.Get(Uz) == n.uz && n.Get(Ru) == n.ru && n.Get(En) == n.en;
      }
    }

    method DeletePhone(id: Id) returns (outcome: Outcome)
      requires Valid()
      modifies this`phones
      ensures Valid()
      ensures outcome == if !IsOpen(old(phones), id) then Refused(NotFound)
                         else if HasOpenChild(old(phones), id) then Refused(HasChildren)
                         else if Linked(links, id) then Refused(HasProblems)
                         else Updated
      ensures phones == if outcome.Updated? then old(phones)[id := old(phones)[id].(open := false)] else old(phones)
    {
      hide Sound, NonemptyNamesDistinct, LinksSound;
      if !(id in phones && phones[id].open) {
        return Refused(NotFound);
      }
      if exists c :: c in phones && phones[c].open && phones[c].parent == Some(id) {
        return Refused(HasChildren);
      }
      if exists l :: l in links && l.phone == id {
        return Refused(HasProblems);
      }
      CloseIsSound(phones, id, lower);
      PhonesGrow(phones, phones[id := Closed(phones[id])], problems, links);
      phones := phones[id := Closed(phones[id])];
      outcome := Updated;
    }

    method UpdatePhoneSort(id: Id, newSort: int) returns (outcome: Outcome)
      requires Valid()
      modifies this`phones
      ensures Valid()
      ensures outcome == if !IsOpen(old(phones), id) then Refused(NotFound)
                         else if newSort == old(phones)[id].sort then NoChange
                         else Updated
      ensures if outcome.Updated? then Placed(old(phones), phones, id, newSort) else phones == old(phones)
    {
      hide Sound, NonemptyNamesDistinct, LinksSound, WithSort, AddToRange, Placed;
      if !(id in phones && phones[id].open) {
        return Refused(NotFound);
      }
      var from, parent := phones[id].sort, phones[id].parent;
      if newSort == from {
        return NoChange;
      }
      TwoUpdatesKeep(phones, id, newSort, lower);
      TwoUpdatesPlace(phones, id, newSort);
      PhonesGrow(phones, TwoUpdates(phones, id, newSort), problems, links);
      if newSort < from {
        phones := AddToRange(phones, parent, newSort, from - 1, 1);
      } else {
        phones := AddToRange(phones, parent, from + 1, newSort, -1);
      }
      phones := WithSort(phones, id, newSort);
      outcome := Updated;
    }

    method CreateProblem(parent: Option<Id>, phone: Option<Id>, names: Names) returns (outcome: Outcome)
      requires Valid()
      modifies this`problems, this`links, this`next
      ensures Valid()
      ensures var refusal := ProblemRefusal(phones, old(problems), old(links), lower, parent, phone, names);
              if refusal.Some? then outcome == Refused(refusal.value) && problems == old(problems)
                  && links == old(links)
              else
                && outcome.Created? && outcome.id !in old(problems) && outcome.id in problems
                && problems == old(problems)[outcome.id := Category(parent, true, true, problems[outcome.id].sort,
                     names)]
                && ComesNext(old(problems), _ => true, problems[outcome.id].sort)
                && links == if phone.Some? then old(links) + {Link(phone.value, outcome.id)} else old(links)
    {
      hide Sound, NonemptyNamesDistinct, LinksSound, AllSorts, SortOrder.IsMax;
      if parent.Some? && phone.Some? {
        return Refused(ParentAndPhone);
      }
      if parent.None? && phone.None? {
        return Refused(PhoneRequired);
      }
      if parent.Some? {
        if !(parent.value in problems && problems[parent.value].open && problems[parent.value].active) {
          return Refused(ParentInactive);
        }
        NamesShared(problems, parent, names);
        if exists c :: c in problems && problems[c].open && problems[c].parent == parent
            && SharesName(problems[c].names, names) {
          return Refused(NameConflict);
        }
        if exists c :: c in problems && problems[c].parent == parent && problems[c].names.uz == names.uz {
          return Refused(DatabaseError);
        }
      } else {
        if exists c :: c in phones && phones[c].open && phones[c].active && phones[c].parent == Some(phone.value) {
          return Refused(PhoneHasChildren);
        }
        RootNamesShared(problems, links, phone.value, names);
        if exists k :: k in links && IsNamedRoot(problems, k, phone.value, names) {
          return Refused(NameConflict);
        }
        if phone.value !in phones {
          return Refused(DatabaseError);
        }
      }
      var sort := SortOrder.NextSort(AllSorts(problems));
      var row := Category(parent, true, true, sort, names);
      NextIsAfterAll(problems, sort);
      NextOfAll(problems, sort);
      InsertIsSound(problems, next, row);
      ProblemAdded(phones, problems, links, next, row, phone);
      outcome := Created(next);
      problems := problems[next := row];
      if phone.Some? {
        links := links + {Link(phone.value, next)};
      }
      next := next + 1;
    }

    predicate IsNamedRoot(problems: Table, k: Link, phone: Id, names: Names) {
      && k.phone == phone && k.problem in problems
      && problems[k.problem].parent == None && problems[k.problem].open && problems[k.problem].active
      && SharesName(problems[k.problem].names, names)
    }

    lemma RootNamesShared(problems: Table, links: set<Link>, phone: Id, names: Names)
      ensures RootNameExists(problems, links, lower, phone, names) <==>
          exists k :: k in links && IsNamedRoot(problems, k, phone, names)
    {
      forall c | c in problems
        ensures SharesName(problems[c].names, names) <==>
            exists l: Language :: lower(problems[c].names.Get(l)) == lower(names.Get(l))
      {
        EveryLanguage(lower, problems[c].names, names);
      }
    }

    method DeleteProblem(id: Id) returns (outcome: Outcome)
      requires Valid()
      modifies this`problems, this`links
      ensures Valid()
      ensures outcome == if !IsOpen(old(problems), id) then Refused(NotFound)
                         else if HasOpenChild(old(problems), id) then Refused(HasChildren)
                         else Updated
      ensures problems == if outcome.Updated? then old(problems)[id := old(problems)[id].(open := false)]
                          else old(problems)
      ensures links == if outcome.Updated? then (set l | l in old(links) && l.problem != id) else old(links)
    {
      hide Sound, NonemptyNamesDistinct, LinksSound;
      if !(id in problems && problems[id].open) {
        return Refused(NotFound);
      }
      if exists c :: c in problems && problems[c].open && problems[c].parent == Some(id) {
        return Refused(HasChildren);
      }
      CloseIsSound(problems, id, lower);
      ProblemClosed(phones, problems, links, id);
      if problems[id].parent == None {
        links := set l | l in links && l.problem != id;
      }
      problems := problems[id := Closed(problems[id])];
      outcome := Updated;
    }

    method UpdateProblemSort(id: Id, newSort: int) returns (outcome: Outcome)
      requires Valid()
      modifies this`problems
      ensures Valid()
      ensures outcome == if !IsOpen(old(problems), id) then Refused(NotFound)
                         else if newSort == old(problems)[id].sort then NoChange
                         else Updated
      ensures if outcome.Updated? then Placed(old(problems), problems, id, newSort) else problems == old(problems)
    {
      hide Sound, NonemptyNamesDistinct, LinksSound, WithSort, AddToRange, Placed;
      if !(id in problems && problems[id].open) {
        return Refused(NotFound);
      }
      var from, parent := problems[id].sort, problems[id].parent;
      if newSort == from {
        return NoChange;
      }
      TwoUpdatesKeep(problems, id, newSort, lower);
      TwoUpdatesPlace(problems, id, newSort);
      ProblemsSorted(phones, problems, TwoUpdates(problems, id, newSort), links);
      if newSort < from {
        problems := AddToRange(problems, parent, newSort, from - 1, 1);
      } else {
        problems := AddToRange(problems, parent, from + 1, newSort, -1);
      }
      problems := WithSort(problems, id, newSort);
      outcome := Updated;
    }
  }

  lemma EveryLanguage(lower: string -> string, a: Names, b: Names)
    ensures (lower(a.uz) == lower(b.uz) || lower(a.ru) == lower(b.ru) || lower(a.en) == lower(b.en))
            <==> exists l: Language :: lower(a.Get(l)) == lower(b.Get(l))
  {
    assert a.Get(Uz) == a.uz && a.Get(Ru) == a.ru && a.Get(En) == a.en;
    assert b.Get(Uz) == b.uz && b.Get(Ru) == b.ru && b.Get(En) == b.en;
  }

  lemma NextIsAfterSiblings(t: Table, parent: Option<Id>, sort: int)
    requires IsNext(SiblingSorts(t, parent), sort)
    ensures forall c :: c in t && t[c].parent == parent ==> t[c].sort < sort
  {
    forall c | c in t && t[c].parent == parent
      ensures t[c].sort < sort
    {
      assert c in SiblingSorts(t, parent);
    }
  }

  lemma NextIsAfterAll(t: Table, sort: int)
    requires IsNext(AllSorts(t), sort)
    ensures forall c :: c in t ==> t[c].sort < sort
  {
    forall c | c in t
      ensures t[c].sort < sort
    {
      assert c in AllSorts(t);
    }
  }

  lemma PhonesGrow(phones: Table, after: Table, problems: Table, links: set<Link>)
    requires LinksSound(phones, problems, links) && phones.Keys <= after.Keys
    ensures LinksSound(after, problems, links)
  {
  }

  lemma ProblemsSorted(phones: Table, problems: Table, after: Table, links: set<Link>)
    requires LinksSound(phones, problems, links) && SameButSorts(problems, after)
    ensures LinksSound(phones, after, links)
  {
    assert forall p :: IsOpenRoot(after, p) <==> IsOpenRoot(problems, p);
  }

  lemma ProblemAdded(phones: Table, problems: Table, links: set<Link>, id: Id, c: Category, phone: Option<Id>)
    requires LinksSound(phones, problems, links) && id !in problems && c.open
    requires phone.Some? <==> c.parent.None?
    requires phone.Some? ==> phone.value in phones
    ensures LinksSound(phones, problems[id := c], if phone.Some? then links + {Link(phone.value, id)} else links)
  {
    var after, linked := problems[id := c], if phone.Some? then links + {Link(phone.value, id)} else links;
    forall p | IsOpenRoot(after, p)
      ensures exists l :: l in linked && l.problem == p
    {
      if p == id {
        assert Link(phone.value, id) in linked;
      } else {
        assert IsOpenRoot(problems, p);
        var l :| l in links && l.problem == p;
        assert l in linked;
      }
    }
    assert forall l :: l in links ==> IsOpenRoot(problems, l.problem) && l.problem != id;
  }

  lemma ProblemClosed(phones: Table, problems: Table, links: set<Link>, id: Id)
    requires LinksSound(phones, problems, links) && IsOpen(problems, id)
    ensures LinksSound(phones, problems[id := Closed(problems[id])], set l | l in links && l.problem != id)
    ensures problems[id].parent.Some? ==> links == set l | l in links && l.problem != id
  {
    var after, left := problems[id := Closed(problems[id])], set l | l in links && l.problem != id;
    assert forall l :: l in links ==> IsOpenRoot(problems, l.problem);
    forall p | IsOpenRoot(after, p)
      ensures exists l :: l in left && l.problem == p
    {
      assert p != id && IsOpenRoot(problems, p);
      var l :| l in links && l.problem == p;
      assert l in left;
    }
  }
}
