/** The startup script that folds the repair-order statuses of child branches onto those of
    the mother branch: orders, transitions and permissions move to the mother statuses, and
    the child statuses are deleted. */
module StatusReconcile {
  import opened Wrappers

  type StatusId = nat
  type BranchId = nat
  type RoleId = nat
  type OrderId = nat

  const MOTHER: BranchId := 0

  datatype Branch = Branch(open: bool, active: bool, isProtected: bool, parent: Option<BranchId>)

  /** `kind` is the status type, empty when there is none; names are trimmed and lower-case. */
  datatype Status = Status(branch: BranchId, open: bool, active: bool, sort: int, kind: string,
                           nameUz: string, nameRu: string, nameEn: string)

  datatype Transition = Transition(from: StatusId, to: StatusId, role: Option<RoleId>)

  datatype PermKey = PermKey(branch: BranchId, status: StatusId, role: RoleId)

  /** A nullable boolean column. */
  datatype SqlBool = False | True | Null

  const COLUMN_COUNT := 27
  /** The columns that are read through COALESCE(column, false). */
  const FIRST_COALESCED := 24

  type Flags = f: seq<SqlBool> | |f| == 27 witness seq(27, _ => False)

  function AllFalse(): Flags {
    seq(27, _ => False)
  }

  function StatusKey(s: Status): string {
    if s.kind != "" then "type:" + s.kind
    else "name:" + s.nameUz + ":" + s.nameRu + ":" + s.nameEn
  }

  /** Statuses match by type if either has one, else by their three names in a row. */
  ghost predicate Matches(a: Status, b: Status) {
    if a.kind != "" || b.kind != "" then a.kind == b.kind
    else a.nameUz + ":" + a.nameRu + ":" + a.nameEn == b.nameUz + ":" + b.nameRu + ":" + b.nameEn
  }

  lemma KeyMatches(a: Status, b: Status)
    ensures StatusKey(a) == StatusKey(b) <==> Matches(a, b)
  {
    if a.kind != "" || b.kind != "" {
      assert a.kind != "" ==> StatusKey(a)[0] == 't' && StatusKey(a)[5..] == a.kind;
      assert b.kind != "" ==> StatusKey(b)[0] == 't' && StatusKey(b)[5..] == b.kind;
      assert a.kind == "" ==> StatusKey(a)[0] == 'n';
      assert b.kind == "" ==> StatusKey(b)[0] == 'n';
    } else {
      assert StatusKey(a) == "name:" + (a.nameUz + ":" + a.nameRu + ":" + a.nameEn);
      assert StatusKey(b) == "name:" + (b.nameUz + ":" + b.nameRu + ":" + b.nameEn);
      assert StatusKey(a)[5..] == a.nameUz + ":" + a.nameRu + ":" + a.nameEn;
      assert StatusKey(b)[5..] == b.nameUz + ":" + b.nameRu + ":" + b.nameEn;
    }
  }

  lemma KeysMatch()
    ensures forall a: Status, b: Status :: StatusKey(a) == StatusKey(b) <==> Matches(a, b)
  {
    forall a: Status, b: Status
      ensures StatusKey(a) == StatusKey(b) <==> Matches(a, b)
    {
      KeyMatches(a, b);
    }
  }

  ghost predicate SameNames(a: Status, b: Status) {
    a.nameUz == b.nameUz && a.nameRu == b.nameRu && a.nameEn == b.nameEn
  }

  ghost function Joined(a: Status): string {
    a.nameUz + ":" + a.nameRu + ":" + a.nameEn
  }

  /** Where the two separators stand, and what stands around them. */
  lemma JoinedAt(a: Status)
    ensures var s, p, q := Joined(a), |a.nameUz|, |a.nameUz| + 1 + |a.nameRu|;
            && q < |s| && s[p] == s[q] == ':'
            && a.nameUz == s[..p] && a.nameRu == s[p + 1..q] && a.nameEn == s[q + 1..]
  {
  }

  lemma CutAt(x: string) returns (left: string, right: string)
    requires ':' in x
    ensures x == left + ":" + right && left != x && right != x
  {
    var k :| 0 <= k < |x| && x[k] == ':';
    left, right := x[..k], x[k + 1..];
    assert |left| < |x| && |right| < |x|;
  }

  /** Four texts in a row, cut into three in three ways. */
  lemma Recut(a: string, b: string, c: string, d: string)
    ensures (a + ":" + b) + ":" + c + ":" + d == a + ":" + b + ":" + (c + ":" + d) == a + ":" + (b + ":" + c) + ":" + d
  {
  }

  /** A name with a colon can be cut there, so that another status has the same names in a row. */
  lemma ColonConfuses(a: Status) returns (b: Status)
    requires a.kind == "" && (':' in a.nameUz || ':' in a.nameRu || ':' in a.nameEn)
    ensures b.kind == "" && Matches(a, b) && !SameNames(a, b)
  {
    if ':' in a.nameUz {
      var left, right := CutAt(a.nameUz);
      b := a.(nameUz := left, nameRu := right, nameEn := a.nameRu + ":" + a.nameEn);
      Recut(left, right, a.nameRu, a.nameEn);
    } else if ':' in a.nameRu {
      var left, right := CutAt(a.nameRu);
      b := a.(nameRu := left, nameEn := right + ":" + a.nameEn);
      Recut(a.nameUz, left, right, a.nameEn);
    } else {
      var left, right := CutAt(a.nameEn);
      b := a.(nameRu := a.nameRu + ":" + left, nameEn := right);
      Recut(a.nameUz, a.nameRu, left, right);
    }
  }

  ghost predicate ColonFree(a: Status) {
    ':' !in a.nameUz && ':' !in a.nameRu && ':' !in a.nameEn
  }

  lemma OnlySeparators(a: Status, k: nat)
    requires ColonFree(a) && k < |Joined(a)|
    ensures Joined(a)[k] == ':' ==> k == |a.nameUz| || k == |a.nameUz| + 1 + |a.nameRu|
  {
    var p, q := |a.nameUz|, |a.nameUz| + 1 + |a.nameRu|;
    assert k < p ==> Joined(a)[k] in a.nameUz;
    assert p < k < q ==> Joined(a)[k] in a.nameRu;
    assert q < k ==> Joined(a)[k] in a.nameEn;
  }

  lemma ColonFreeIsTold(a: Status, b: Status)
    requires ColonFree(a) && Joined(a) == Joined(b)
    ensures SameNames(a, b)
  {
    JoinedAt(a);
    JoinedAt(b);
    OnlySeparators(a, |b.nameUz|);
    OnlySeparators(a, |b.nameUz| + 1 + |b.nameRu|);
    hide Joined, ColonFree;
  }

  /** A status without a type only matches statuses of the same names exactly when none of its
      names has a colon. */
  lemma NamesAreTold(a: Status)
    requires a.kind == ""
    ensures (forall b: Status :: b.kind == "" && Matches(a, b) ==> SameNames(a, b)) <==> ColonFree(a)
  {
    if ColonFree(a) {
      forall b: Status | b.kind == "" && Matches(a, b)
        ensures SameNames(a, b)
      {
        ColonFreeIsTold(a, b);
      }
    } else {
      var b := ColonConfuses(a);
    }
  }

  /** With a colon in a name, statuses with different names may match. */
  lemma ColonsConfuse()
    ensures var a := Status(MOTHER, true, true, 1, "", "new", "a:b", "c");
            var b := Status(1, true, true, 1, "", "new", "a", "b:c");
            Matches(a, b) && !SameNames(a, b)
  {
    assert "new" + ":" + "a:b" + ":" + "c" == "new" + ":" + "a" + ":" + "b:c";
    assert |"a:b"| != |"a"|;
  }

  // The status map

  type StatusMap = map<StatusId, StatusId>

  ghost predicate IsMotherStatus(statuses: map<StatusId, Status>, m: StatusId) {
    m in statuses && statuses[m].open && statuses[m].branch == MOTHER
  }

  ghost predicate IsChildStatus(statuses: map<StatusId, Status>, c: StatusId) {
    c in statuses && statuses[c].open && statuses[c].branch != MOTHER
  }

  /** Exactly the open child statuses with a matching open mother status are mapped, each to one
      that matches and that no other match follows in sort order. */
  ghost predicate IsStatusMap(statuses: map<StatusId, Status>, mapping: StatusMap) {
    && (forall c :: c in mapping <==>
          IsChildStatus(statuses, c) &&
          exists m :: IsMotherStatus(statuses, m) && Matches(statuses[m], statuses[c]))
    && (forall c :: c in mapping ==>
          && IsMotherStatus(statuses, mapping[c])
          && Matches(statuses[mapping[c]], statuses[c])
          && forall m :: IsMotherStatus(statuses, m) && Matches(statuses[m], statuses[c])
               ==> statuses[m].sort <= statuses[mapping[c]].sort)
  }

  ghost predicate InSortOrder(statuses: map<StatusId, Status>, list: seq<StatusId>) {
    forall i, j :: 0 <= i < j < |list| ==>
      list[i] in statuses && list[j] in statuses && statuses[list[i]].sort <= statuses[list[j]].sort
  }

  function Renamed(mapping: StatusMap, s: StatusId): StatusId {
    if s in mapping then mapping[s] else s
  }

  lemma MotherStatusesStay(statuses: map<StatusId, Status>, mapping: StatusMap, s: StatusId)
    requires IsStatusMap(statuses, mapping)
    ensures Renamed(mapping, s) !in mapping
    ensures IsMotherStatus(statuses, s) ==> Renamed(mapping, s) == s
  {
  }

  // Transitions

  function RenamedTransition(mapping: StatusMap, t: Transition): Transition {
    Transition(Renamed(mapping, t.from), Renamed(mapping, t.to), t.role)
  }

  /** The rows the INSERT ... SELECT DISTINCT adds. */
  function NewTransitions(mapping: StatusMap, rows: seq<Transition>): set<Transition> {
    set t | t in rows && (t.from in mapping || t.to in mapping)
            && Renamed(mapping, t.from) != Renamed(mapping, t.to) && RenamedTransition(mapping, t) !in rows
      :: RenamedTransition(mapping, t)
  }

  ghost predicate NoDuplicates<T>(rows: seq<T>) {
    forall i, j :: 0 <= i < j < |rows| ==> rows[i] != rows[j]
  }

  /** May a bearer of the roles go from one status to another? */
  ghost predicate Allowed(rows: seq<Transition>, roles: set<Option<RoleId>>, a: StatusId, b: StatusId) {
    exists r :: r in roles && Transition(a, b, r) in rows
  }

  ghost predicate IsPath(rows: seq<Transition>, roles: set<Option<RoleId>>, path: seq<StatusId>) {
    forall i :: 0 <= i < |path| - 1 ==> Allowed(rows, roles, path[i], path[i + 1])
  }

  /** A path under the renaming, without the steps that stay in place. */
  function RenamedPath(mapping: StatusMap, path: seq<StatusId>): seq<StatusId> {
    if path == [] then []
    else
      var rest, last := RenamedPath(mapping, path[..|path| - 1]), Renamed(mapping, path[|path| - 1]);
      if rest != [] && rest[|rest| - 1] == last then rest else rest + [last]
  }

  /** The row is the other under the mother statuses' names. */
  ghost predicate IsRename(mapping: StatusMap, t: Transition, renamed: Transition) {
    && renamed.from == (if t.from in mapping then mapping[t.from] else t.from)
    && renamed.to == (if t.to in mapping then mapping[t.to] else t.to)
    && renamed.role == t.role
  }

  /** The rows after the statement: those before, and the renamed ones of mapped statuses that do
      not stay in place. */
  ghost predicate TransitionsFolded(mapping: StatusMap, before: seq<Transition>, after: seq<Transition>) {
    && (forall t :: t in after <==> t in before || StemsFromMapped(mapping, before, t))
    && (NoDuplicates(before) ==> NoDuplicates(after))
  }

  ghost predicate StemsFromMapped(mapping: StatusMap, before: seq<Transition>, renamed: Transition) {
    && renamed.from != renamed.to
    && exists t :: t in before && (t.from in mapping || t.to in mapping) && IsRename(mapping, t, renamed)
  }

  lemma NewStemFromMapped(mapping: StatusMap, rows: seq<Transition>, t: Transition)
    ensures t in rows || t in NewTransitions(mapping, rows) <==> t in rows || StemsFromMapped(mapping, rows, t)
  {
  }

  lemma StepSurvives(mapping: StatusMap, before: seq<Transition>, after: seq<Transition>,
                     roles: set<Option<RoleId>>, a: StatusId, b: StatusId)
    requires TransitionsFolded(mapping, before, after) && Allowed(before, roles, a, b)
    requires Renamed(mapping, a) != Renamed(mapping, b)
    ensures Allowed(after, roles, Renamed(mapping, a), Renamed(mapping, b))
  {
    var r :| r in roles && Transition(a, b, r) in before;
    var t := RenamedTransition(mapping, Transition(a, b, r));
    assert IsRename(mapping, Transition(a, b, r), t);
    assert t in after;
  }

  /** Every path of allowed transitions is, renamed and without stutters, a path of allowed
      transitions afterwards, between the renamed ends. */
  lemma {:induction false} PathsSurvive(mapping: StatusMap, before: seq<Transition>, after: seq<Transition>,
                                        roles: set<Option<RoleId>>, path: seq<StatusId>)
    requires TransitionsFolded(mapping, before, after) && IsPath(before, roles, path)
    ensures var renamed := RenamedPath(mapping, path);
            && IsPath(after, roles, renamed)
            && (path != [] ==> renamed != [] && renamed[0] == Renamed(mapping, path[0])
                               && renamed[|renamed| - 1] == Renamed(mapping, path[|path| - 1]))
    decreases |path|
  {
    if |path| > 1 {
      var n := |path| - 1;
      var earlier := path[..n];
      PathsSurvive(mapping, before, after, roles, earlier);
      assert Allowed(before, roles, path[n - 1], path[n]);
      var rest := RenamedPath(mapping, earlier);
      if Renamed(mapping, path[n - 1]) != Renamed(mapping, path[n]) {
        StepSurvives(mapping, before, after, roles, path[n - 1], path[n]);
      }
      assert earlier[n - 1] == path[n - 1];
    } else if |path| == 1 {
      assert path[..0] == [];
    }
  }

  /** No transition appears that was not there before under some names. */
  lemma NothingNewIsAllowed(mapping: StatusMap, before: seq<Transition>, after: seq<Transition>,
                            roles: set<Option<RoleId>>, a: StatusId, b: StatusId)
    requires TransitionsFolded(mapping, before, after) && Allowed(after, roles, a, b)
    ensures Allowed(before, roles, a, b)
            || exists c, d :: Renamed(mapping, c) == a && Renamed(mapping, d) == b && Allowed(before, roles, c, d)
  {
    var r :| r in roles && Transition(a, b, r) in after;
    if Transition(a, b, r) !in before {
      var u := Transition(a, b, r);
      var t :| t in before && IsRename(mapping, t, u);
      assert IsRename(mapping, t, u);
      assert u.role == r;
      assert u.role == t.role;
      assert t == Transition(t.from, t.to, r);
      assert Allowed(before, roles, t.from, t.to);
    }
  }

  // Permissions

  /** SQL's OR on nullable booleans. */
  function Or(a: SqlBool, b: SqlBool): SqlBool {
    if a == True || b == True then True else if a == Null || b == Null then Null else False
  }

  /** The aggregate bool_or: nulls are skipped, and null comes out when nothing is left. */
  function BoolOr(values: set<SqlBool>): SqlBool {
    if True in values then True else if False in values then False else Null
  }

  function Read(flags: Flags, column: nat): SqlBool
    requires column < COLUMN_COUNT
  {
    if column >= FIRST_COALESCED && flags[column] == Null then False else flags[column]
  }

  function TargetOf(mapping: StatusMap, p: PermKey): PermKey {
    PermKey(p.branch, Renamed(mapping, p.status), p.role)
  }

  /** The child rows that fold onto a row. */
  function Group(perms: map<PermKey, Flags>, mapping: StatusMap, g: PermKey): set<PermKey> {
    set p | p in perms && p.status in mapping && TargetOf(mapping, p) == g
  }

  function GroupValues(perms: map<PermKey, Flags>, mapping: StatusMap, g: PermKey, column: nat): set<SqlBool>
    requires column < COLUMN_COUNT
  {
    set p | p in Group(perms, mapping, g) :: Read(perms[p], column)
  }

  /** The row an INSERT proposes for a group. */
  function Excluded(perms: map<PermKey, Flags>, mapping: StatusMap, g: PermKey): Flags {
    seq(COLUMN_COUNT, c requires 0 <= c < COLUMN_COUNT => BoolOr(GroupValues(perms, mapping, g, c)))
  }

  /** The rows some child row folds onto. */
  function Targets(perms: map<PermKey, Flags>, mapping: StatusMap): set<PermKey> {
    set p | p in perms && p.status in mapping :: TargetOf(mapping, p)
  }

  /** INSERT ... ON CONFLICT DO UPDATE of every group. */
  function Upserted(perms: map<PermKey, Flags>, mapping: StatusMap): map<PermKey, Flags> {
    map g | g in perms.Keys + Targets(perms, mapping) ::
      if g !in Targets(perms, mapping) then perms[g]
      else if g !in perms then Excluded(perms, mapping, g)
      else OrFlags(perms[g], Excluded(perms, mapping, g))
  }

  function OrFlags(a: Flags, b: Flags): Flags {
    seq(COLUMN_COUNT, c requires 0 <= c < COLUMN_COUNT => Or(a[c], b[c]))
  }

  function WithoutChildRows(perms: map<PermKey, Flags>, mapping: StatusMap): map<PermKey, Flags> {
    map g | g in perms && g.status !in mapping :: perms[g]
  }

  /** Upsert, then delete the child rows. */
  function FoldedPermissions(perms: map<PermKey, Flags>, mapping: StatusMap): map<PermKey, Flags> {
    WithoutChildRows(Upserted(perms, mapping), mapping)
  }

  /** The fold is an exact OR: a row exists afterwards exactly when it or a child row of it
      existed, rows of mapped statuses are gone, and a flag is set exactly when it was set in
      the row before or in some child row that folds onto it. */
  lemma FoldIsExactOr(perms: map<PermKey, Flags>, mapping: StatusMap, g: PermKey, column: nat)
    requires column < COLUMN_COUNT
    ensures var after := FoldedPermissions(perms, mapping);
            && (g in after <==> g.status !in mapping && (g in perms || Group(perms, mapping, g) != {}))
            && (g in after ==>
                  (after[g][column] == True <==>
                   (g in perms && perms[g][column] == True)
                   || exists p :: p in Group(perms, mapping, g) && perms[p][column] == True))
            && (g in after && Group(perms, mapping, g) == {} ==> after[g] == perms[g])
  {
    var targets := Targets(perms, mapping);
    var group := Group(perms, mapping, g);
    assert forall p :: p in group ==> TargetOf(mapping, p) in targets;
    assert g in targets ==> exists p :: p in perms && p.status in mapping && TargetOf(mapping, p) == g && p in group;
    assert g in targets <==> group != {};
    if group != {} {
      var values := GroupValues(perms, mapping, g, column);
      forall p | p in group
        ensures Read(perms[p], column) in values
      {
      }
      assert True in values <==> exists p :: p in group && perms[p][column] == True;
      assert Excluded(perms, mapping, g)[column] == BoolOr(values);
    }
  }

  /** The fold is SQL's OR also where nulls are concerned. */
  lemma FoldIsExactlyFalse(perms: map<PermKey, Flags>, mapping: StatusMap, g: PermKey, column: nat)
    requires column < COLUMN_COUNT && g in FoldedPermissions(perms, mapping)
    ensures FoldedPermissions(perms, mapping)[g][column] == False <==>
            && (g in perms ==> perms[g][column] == False)
            && (forall p :: p in Group(perms, mapping, g) ==> perms[p][column] != True)
            && (Group(perms, mapping, g) != {} ==>
                  exists p :: p in Group(perms, mapping, g)
                              && (perms[p][column] == False || (column >= 24 && perms[p][column] == Null)))
  {
    FoldIsExactOr(perms, mapping, g, column);
    var group := Group(perms, mapping, g);
    assert g in Targets(perms, mapping) <==> group != {} by {
      assert forall p :: p in group ==> TargetOf(mapping, p) in Targets(perms, mapping);
      assert g in Targets(perms, mapping) ==>
          exists p :: p in perms && p.status in mapping && TargetOf(mapping, p) == g && p in group;
    }
    if group != {} {
      var values := GroupValues(perms, mapping, g, column);
      forall p | p in group
        ensures Read(perms[p], column) in values
      {
      }
      assert False in values <==> exists p :: p in group && (perms[p][column] == False
                                                              || (column >= 24 && perms[p][column] == Null));
      assert True in values <==> exists p :: p in group && perms[p][column] == True;
      assert Excluded(perms, mapping, g)[column] == BoolOr(values);
    }
  }

  /** Where no flag is null, the whole value is the OR, not only its truth. */
  lemma FoldKeepsBooleans(perms: map<PermKey, Flags>, mapping: StatusMap, g: PermKey, column: nat)
    requires column < COLUMN_COUNT && g in FoldedPermissions(perms, mapping)
    requires forall p :: p in perms ==> perms[p][column] != Null
    ensures FoldedPermissions(perms, mapping)[g][column] != Null
  {
    FoldIsExactOr(perms, mapping, g, column);
    if Group(perms, mapping, g) != {} {
      var p :| p in Group(perms, mapping, g);
      assert Read(perms[p], column) in GroupValues(perms, mapping, g, column);
      assert Excluded(perms, mapping, g)[column] != Null;
    }
  }

  /** The combinations every active branch's roles must have with the active mother statuses. */
  function Combinations(branches: map<BranchId, Branch>, statuses: map<StatusId, Status>,
                        perms: map<PermKey, Flags>): set<PermKey> {
    set p, m | p in perms && p.branch in branches && branches[p.branch].open && branches[p.branch].active
               && m in statuses && statuses[m].open && statuses[m].branch == MOTHER && statuses[m].active
      :: PermKey(p.branch, m, p.role)
  }

  /** INSERT ... ON CONFLICT DO NOTHING of all-false rows. */
  function Completed(branches: map<BranchId, Branch>, statuses: map<StatusId, Status>,
                     perms: map<PermKey, Flags>): map<PermKey, Flags> {
    map g | g in perms.Keys + Combinations(branches, statuses, perms) :: if g in perms then perms[g] else AllFalse()
  }

  /** Completing adds no branch and role, so completing again changes nothing. */
  lemma CompletedIsComplete(branches: map<BranchId, Branch>, statuses: map<StatusId, Status>,
                            perms: map<PermKey, Flags>)
    ensures var after := Completed(branches, statuses, perms);
            Combinations(branches, statuses, after) <= after.Keys && Completed(branches, statuses, after) == after
  {
    var after := Completed(branches, statuses, perms);
    forall g | g in Combinations(branches, statuses, after)
      ensures g in after
    {
      var p, m :| p in after && p.branch in branches && branches[p.branch].open && branches[p.branch].active
                  && m in statuses && statuses[m].open && statuses[m].branch == MOTHER && statuses[m].active
                  && g == PermKey(p.branch, m, p.role);
      if p !in perms {
        var q, l :| q in perms && q.branch in branches && branches[q.branch].open && branches[q.branch].active
                    && l in statuses && statuses[l].open && statuses[l].branch == MOTHER && statuses[l].active
                    && p == PermKey(q.branch, l, q.role);
        assert g == PermKey(q.branch, m, q.role);
      }
      assert g in Combinations(branches, statuses, perms);
    }
  }

  /** The row is one of a mapped child status, with the branch and role of the other row and the
      mother status of that row. */
  ghost predicate FoldsOnto(perms: map<PermKey, Flags>, mapping: StatusMap, p: PermKey, g: PermKey) {
    && p in perms && p.status in mapping && mapping[p.status] == g.status
    && p.branch == g.branch && p.role == g.role
  }

  ghost predicate IsActiveBranch(branches: map<BranchId, Branch>, b: BranchId) {
    b in branches && branches[b].open && branches[b].active
  }

  /** The row stays when child rows are folded, or arises from them. */
  ghost predicate Remains(perms: map<PermKey, Flags>, mapping: StatusMap, g: PermKey) {
    g.status !in mapping && (g in perms || exists p :: FoldsOnto(perms, mapping, p, g))
  }

  /** The row is for an active mother status, and its active branch and role have another row. */
  ghost predicate IsMissing(branches: map<BranchId, Branch>, statuses: map<StatusId, Status>,
                            before: map<PermKey, Flags>, mapping: StatusMap, g: PermKey) {
    && IsActiveBranch(branches, g.branch) && IsMotherStatus(statuses, g.status) && statuses[g.status].active
    && exists p :: Remains(before, mapping, p) && p.branch == g.branch && p.role == g.role
  }

  ghost predicate FlagIsSet(perms: map<PermKey, Flags>, mapping: StatusMap, g: PermKey, c: nat)
    requires c < 27
  {
    || (g in perms && perms[g][c] == True)
    || exists p :: FoldsOnto(perms, mapping, p, g) && perms[p][c] == True
  }

  /** False, as SQL's OR has it: false before, set in no child row, and false in some child row
      if there is one, where the last three columns count null as false. */
  ghost predicate FlagIsClear(perms: map<PermKey, Flags>, mapping: StatusMap, g: PermKey, c: nat)
    requires c < 27
  {
    && (g in perms ==> perms[g][c] == False)
    && (forall p :: FoldsOnto(perms, mapping, p, g) ==> perms[p][c] != True)
    && ((exists p :: FoldsOnto(perms, mapping, p, g)) ==>
          exists p :: FoldsOnto(perms, mapping, p, g) && (perms[p][c] == False || (c >= 24 && perms[p][c] == Null)))
  }

  lemma FlagIsInherited(branches: map<BranchId, Branch>, statuses: map<StatusId, Status>,
                        before: map<PermKey, Flags>, mapping: StatusMap, after: map<PermKey, Flags>, g: PermKey, c: nat)
    requires forall m :: IsMotherStatus(statuses, m) ==> m !in mapping
    requires after == Completed(branches, statuses, FoldedPermissions(before, mapping)) && g in after && c < 27
    ensures after[g][c] == True <==> FlagIsSet(before, mapping, g, c)
    ensures after[g][c] == False <==> FlagIsClear(before, mapping, g, c)
  {
    FoldIsExactOr(before, mapping, g, c);
    if g in FoldedPermissions(before, mapping) {
      FoldIsExactlyFalse(before, mapping, g, c);
    }
    AddedIsFalse(branches, statuses, FoldedPermissions(before, mapping), g, c);
    hide FoldedPermissions, Completed, Combinations;
    forall p
      ensures FoldsOnto(before, mapping, p, g) <==> p in Group(before, mapping, g)
    {
    }
    hide FoldsOnto, Group;
  }

  /** A row that completing adds is for a mother status and has no flag set; the others stay. */
  lemma AddedIsFalse(branches: map<BranchId, Branch>, statuses: map<StatusId, Status>, perms: map<PermKey, Flags>,
                     g: PermKey, c: nat)
    requires g in Completed(branches, statuses, perms) && c < 27
    ensures g in perms ==> Completed(branches, statuses, perms)[g] == perms[g]
    ensures g !in perms ==> Completed(branches, statuses, perms)[g][c] == False && IsMotherStatus(statuses, g.status)
  {
  }

  /** What folding and completing leave: the rows that remain and the missing combinations; and
      a flag is set or clear exactly as the row before and the child rows that fold onto it say,
      so no right arises that was not there. */
  ghost predicate PermissionsFolded(branches: map<BranchId, Branch>, statuses: map<StatusId, Status>,
                                    before: map<PermKey, Flags>, mapping: StatusMap, after: map<PermKey, Flags>) {
    && (forall g :: g in after <==> Remains(before, mapping, g) || IsMissing(branches, statuses, before, mapping, g))
    && (forall g, c :: g in after && 0 <= c < 27 ==>
          && (after[g][c] == True <==> FlagIsSet(before, mapping, g, c))
          && (after[g][c] == False <==> FlagIsClear(before, mapping, g, c)))
  }

  lemma FlagsAreInherited(branches: map<BranchId, Branch>, statuses: map<StatusId, Status>,
                          before: map<PermKey, Flags>, mapping: StatusMap, after: map<PermKey, Flags>)
    requires forall m :: IsMotherStatus(statuses, m) ==> m !in mapping
    requires after == Completed(branches, statuses, FoldedPermissions(before, mapping))
    ensures PermissionsFolded(branches, statuses, before, mapping, after)
  {
    forall g, c | g in after && 0 <= c < 27
      ensures after[g][c] == True <==> FlagIsSet(before, mapping, g, c)
      ensures after[g][c] == False <==> FlagIsClear(before, mapping, g, c)
    {
      FlagIsInherited(branches, statuses, before, mapping, after, g, c);
    }
    hide FlagIsSet, FlagIsClear;
    forall g
      ensures g in after <==> Remains(before, mapping, g) || IsMissing(branches, statuses, before, mapping, g)
    {
      RowsRemain(before, mapping);
      RowsComplete(branches, statuses, FoldedPermissions(before, mapping), g);
      hide FoldedPermissions, Completed, Remains;
    }
  }

  lemma RowsRemain(before: map<PermKey, Flags>, mapping: StatusMap)
    ensures forall g :: g in FoldedPermissions(before, mapping) <==> Remains(before, mapping, g)
  {
    forall g
      ensures g in FoldedPermissions(before, mapping) <==> Remains(before, mapping, g)
    {
      FoldIsExactOr(before, mapping, g, 0);
      hide FoldedPermissions;
      assert forall p :: FoldsOnto(before, mapping, p, g) <==> p in Group(before, mapping, g);
    }
  }

  lemma RowsComplete(branches: map<BranchId, Branch>, statuses: map<StatusId, Status>, perms: map<PermKey, Flags>,
                     g: PermKey)
    ensures g in Completed(branches, statuses, perms) <==>
            || g in perms
            || (&& IsActiveBranch(branches, g.branch) && IsMotherStatus(statuses, g.status) && statuses[g.status].active
                && exists p :: p in perms && p.branch == g.branch && p.role == g.role)
  {
  }

  // The script

  function UnderMother(b: Branch): Branch {
    b.(parent := Some(MOTHER))
  }

  function Deleted(s: Status): Status {
    s.(open := false, active := false)
  }

  function WithMother(branches: map<BranchId, Branch>): map<BranchId, Branch> {
    map b | b in branches.Keys + {MOTHER} ::
      if b == MOTHER then Branch(true, true, true, None)
      else if branches[b].open then UnderMother(branches[b])
      else branches[b]
  }

  /** The mother branch is there, open, active, protected and a root; every other open branch
      hangs under it with its other columns as before; other branches are untouched. */
  ghost predicate MotherEnsured(before: map<BranchId, Branch>, after: map<BranchId, Branch>) {
    && after.Keys == before.Keys + {MOTHER} && after[MOTHER] == Branch(true, true, true, None)
    && forall b :: b in before && b != MOTHER ==>
        && (!before[b].open ==> after[b] == before[b])
        && (before[b].open ==> after[b] == Branch(true, before[b].active, before[b].isProtected, Some(MOTHER)))
  }

  /** The two statements leave exactly that, and running them again changes nothing. */
  lemma MotherEnsuredOnce(before: map<BranchId, Branch>, after: map<BranchId, Branch>)
    ensures MotherEnsured(before, after) <==> after == WithMother(before)
    ensures WithMother(WithMother(before)) == WithMother(before)
  {
    if MotherEnsured(before, after) {
      assert after.Keys == WithMother(before).Keys;
    }
  }

  function WithoutMapped(statuses: map<StatusId, Status>, mapping: StatusMap,
                         orders: map<OrderId, StatusId>): map<StatusId, Status> {
    map s | s in statuses ::
      if s in mapping && forall o :: o in orders ==> orders[o] != s then Deleted(statuses[s])
      else statuses[s]
  }

  /** The orders of mapped statuses move to the mother statuses, the others stay. */
  ghost predicate OrdersMoved(before: map<OrderId, StatusId>, mapping: StatusMap, after: map<OrderId, StatusId>) {
    && after.Keys == before.Keys
    && forall o :: o in after ==>
         && after[o] == (if before[o] in mapping then mapping[before[o]] else before[o])
         && after[o] !in mapping
  }

  /** The mapped statuses, and no others, are deleted. */
  ghost predicate StatusesFolded(before: map<StatusId, Status>, mapping: StatusMap, after: map<StatusId, Status>) {
    && after.Keys == before.Keys
    && forall s :: s in after ==>
         after[s] == if s in mapping then before[s].(open := false, active := false) else before[s]
  }

  ghost predicate HasActiveMother(statuses: map<StatusId, Status>) {
    exists m :: IsMotherStatus(statuses, m) && statuses[m].active
  }

  /** Is there nothing left for the script to do? */
  ghost predicate Settled(branches: map<BranchId, Branch>, statuses: map<StatusId, Status>,
                          perms: map<PermKey, Flags>) {
    && MotherEnsured(branches, branches)
    && (statuses != map[] ==>
          && HasActiveMother(statuses)
          && (forall c, m :: IsChildStatus(statuses, c) && IsMotherStatus(statuses, m)
                ==> !Matches(statuses[m], statuses[c]))
          && forall p, m | p in perms && IsActiveBranch(branches, p.branch) && IsMotherStatus(statuses, m)
                           && statuses[m].active :: PermKey(p.branch, m, p.role) in perms)
  }

  datatype Tables = TablesOf(
    branches: map<BranchId, Branch>,
    statuses: map<StatusId, Status>,
    orders: map<OrderId, StatusId>,
    transitions: seq<Transition>,
    permissions: map<PermKey, Flags>)

  datatype Outcome = Reconciled(mapped: nat) | NoStatuses | NoActiveMotherStatus

  class Database {
    var branches: map<BranchId, Branch>
    var statuses: map<StatusId, Status>
    var orders: map<OrderId, StatusId>
    var transitions: seq<Transition>
    var permissions: map<PermKey, Flags>

    /** The insert with its conflict clause, and the update of the other open branches. */
    method EnsureMotherBranch()
      modifies this`branches
      ensures branches == WithMother(old(branches)) && MotherEnsured(old(branches), branches)
    {
      branches := branches[MOTHER := Branch(true, true, true, None)];
      branches := map b | b in branches ::
        if b != MOTHER && branches[b].open then UnderMother(branches[b]) else branches[b];
    }

    /** The ids in ascending sort order. */
    method OrderBySort(ids: set<StatusId>) returns (list: seq<StatusId>)
      requires ids <= statuses.Keys
      ensures (forall s :: s in list <==> s in ids) && NoDuplicates(list)
      ensures InSortOrder(statuses, list)
    {
      list := [];
      var rest := ids;
      while rest != {}
        invariant rest <= ids
        invariant (forall s :: s in list <==> s in ids - rest) && NoDuplicates(list)
        invariant InSortOrder(statuses, list)
        invariant forall s, r :: s in list && r in rest ==>
            s in statuses && r in statuses && statuses[s].sort <= statuses[r].sort
      {
        var least := LeastSort(rest);
        list := list + [least];
        rest := rest - {least};
      }
    }

    method LeastSort(ids: set<StatusId>) returns (least: StatusId)
      requires ids != {} && ids <= statuses.Keys
      ensures least in ids && forall s :: s in ids ==> s in statuses && statuses[least].sort <= statuses[s].sort
    {
      least :| least in ids;
      var rest := ids - {least};
      while rest != {}
        invariant rest <= ids && least in ids
        invariant forall s :: s in ids - rest ==> s in statuses && statuses[least].sort <= statuses[s].sort
      {
        var s :| s in rest;
        rest := rest - {s};
        if statuses[s].sort < statuses[least].sort {
          least := s;
        }
      }
    }

    /** The last open mother status of every key, in sort order. */
    method MotherByKey() returns (motherByKey: map<string, StatusId>)
      ensures forall m :: IsMotherStatus(statuses, m) ==>
                && StatusKey(statuses[m]) in motherByKey
                && motherByKey[StatusKey(statuses[m])] in statuses
                && statuses[m].sort <= statuses[motherByKey[StatusKey(statuses[m])]].sort
      ensures forall k :: k in motherByKey ==>
                IsMotherStatus(statuses, motherByKey[k]) && StatusKey(statuses[motherByKey[k]]) == k
    {
      hide StatusKey;
      var mothers := OrderBySort(set m | m in statuses && statuses[m].open && statuses[m].branch == MOTHER);
      motherByKey := map[];
      for i := 0 to |mothers|
        invariant forall k :: k in motherByKey ==>
                    IsMotherStatus(statuses, motherByKey[k]) && StatusKey(statuses[motherByKey[k]]) == k
                    && motherByKey[k] in mothers[..i]
        invariant forall j :: 0 <= j < i ==>
                    && mothers[j] in statuses && StatusKey(statuses[mothers[j]]) in motherByKey
                    && motherByKey[StatusKey(statuses[mothers[j]])] in statuses
                    && statuses[mothers[j]].sort <= statuses[motherByKey[StatusKey(statuses[mothers[j]])]].sort
      {
        assert mothers[i] in mothers;
        motherByKey := motherByKey[StatusKey(statuses[mothers[i]]) := mothers[i]];
      }
      forall m | IsMotherStatus(statuses, m)
        ensures m in mothers
      {
      }
    }

    /** Matches every open child status with the last open mother status of the same key. */
    method BuildStatusMap() returns (mapping: StatusMap)
      ensures IsStatusMap(statuses, mapping)
    {
      hide StatusKey;
      var motherByKey := MotherByKey();
      var children := OrderBySort(set c | c in statuses && statuses[c].open && statuses[c].branch != MOTHER);
      mapping := map[];
      for i := 0 to |children|
        invariant forall c :: c in mapping <==>
            c in children[..i] && c in statuses && StatusKey(statuses[c]) in motherByKey
        invariant forall c :: c in mapping ==> mapping[c] == motherByKey[StatusKey(statuses[c])]
      {
        assert children[i] in children;
        var key := StatusKey(statuses[children[i]]);
        assert children[..i + 1] == children[..i] + [children[i]];
        if key in motherByKey {
          mapping := mapping[children[i] := motherByKey[key]];
        }
      }
      assert children[..|children|] == children;
      KeysMatch();
      hide Matches;
    }

    /** UPDATE of the orders. */
    method MoveOrders(mapping: StatusMap)
      modifies this`orders
      ensures orders.Keys == old(orders).Keys && forall o :: o in orders ==>
          orders[o] == Renamed(mapping, old(orders)[o])
    {
      orders := map o | o in orders :: if orders[o] in mapping then mapping[orders[o]] else orders[o];
    }

    method FoldTransitions(mapping: StatusMap)
      modifies this`transitions
      ensures TransitionsFolded(mapping, old(transitions), transitions) && old(transitions) <= transitions
    {
      var added := NewTransitions(mapping, transitions);
      ghost var before := transitions;
      while added != {}
        invariant added <= NewTransitions(mapping, before) && before <= transitions
        invariant forall t :: t in transitions <==> t in before || t in NewTransitions(mapping, before) - added
        invariant NoDuplicates(before) ==> NoDuplicates(transitions)
      {
        var t :| t in added;
        assert t !in before;
        transitions := transitions + [t];
        added := added - {t};
      }
      forall t
        ensures t in before || t in NewTransitions(mapping, before) <==>
                t in before || StemsFromMapped(mapping, before, t)
      {
        NewStemFromMapped(mapping, before, t);
      }
    }

    method FoldPermissions(mapping: StatusMap)
      modifies this`permissions
      ensures permissions == FoldedPermissions(old(permissions), mapping)
    {
      permissions := Upserted(permissions, mapping);
      permissions := map p | p in permissions && p.status !in mapping :: permissions[p];
    }

    /** The statements that fold the mapped statuses away.  Without mappings, none is run. */
    method ApplyStatusMap(mapping: StatusMap)
      requires IsStatusMap(statuses, mapping)
      modifies this`orders, this`transitions, this`permissions, this`statuses
      ensures OrdersMoved(old(orders), mapping, orders)
      ensures TransitionsFolded(mapping, old(transitions), transitions)
      ensures permissions == FoldedPermissions(old(permissions), mapping)
      ensures StatusesFolded(old(statuses), mapping, statuses)
      ensures mapping == map[] ==> orders == old(orders) && transitions == old(transitions)
                                   && permissions == old(permissions) && statuses == old(statuses)
    {
      if mapping == map[] {
        NothingToFold(permissions, transitions);
        return;
      }
      forall o | o in orders
        ensures Renamed(mapping, orders[o]) !in mapping
      {
        MotherStatusesStay(statuses, mapping, orders[o]);
      }
      MoveOrders(mapping);
      FoldTransitions(mapping);
      FoldPermissions(mapping);
      statuses := WithoutMapped(statuses, mapping, orders);
    }

    method EnsureChildKanbanStatusPermissions()
      modifies this`permissions
      ensures permissions == Completed(branches, statuses, old(permissions))
      ensures old(permissions).Keys <= permissions.Keys
      ensures forall g :: g in old(permissions) ==> permissions[g] == old(permissions)[g]
      ensures forall g :: g in permissions && g !in old(permissions) ==>
                && (forall c :: 0 <= c < 27 ==> permissions[g][c] == False)
                && IsActiveBranch(branches, g.branch) && IsMotherStatus(statuses, g.status) && statuses[g.status].active
                && exists p :: p in old(permissions) && p.branch == g.branch && p.role == g.role
      ensures forall p, m | p in permissions && IsActiveBranch(branches, p.branch) && IsMotherStatus(statuses, m)
                            && statuses[m].active :: PermKey(p.branch, m, p.role) in permissions
      ensures Combinations(branches, statuses, permissions) <= permissions.Keys
    {
      CompletedIsComplete(branches, statuses, permissions);
      permissions := map g | g in permissions.Keys + Combinations(branches, statuses, permissions) ::
        if g in permissions then permissions[g] else AllFalse();
    }

    /** The statements that follow once there are mother statuses. */
    method FoldStatuses(ghost branchesBefore: map<BranchId, Branch>) returns (mapped: nat, ghost mapping: StatusMap)
      requires HasActiveMother(statuses) && branches == WithMother(branchesBefore) && statuses != map[]
      modifies this`orders, this`transitions, this`permissions, this`statuses
      ensures IsStatusMap(old(statuses), mapping) && mapped == |mapping|
      ensures OrdersMoved(old(orders), mapping, orders)
      ensures TransitionsFolded(mapping, old(transitions), transitions)
      ensures StatusesFolded(old(statuses), mapping, statuses)
      ensures PermissionsFolded(branches, statuses, old(permissions), mapping, permissions)
      ensures Settled(branches, statuses, permissions)
      ensures Settled(branches, old(statuses), old(permissions)) ==>
                && mapped == 0 && statuses == old(statuses) && orders == old(orders)
                && transitions == old(transitions) && permissions == old(permissions)
    {
      hide *;
      ghost var wasSettled := Settled(branches, statuses, permissions);
      var found := BuildStatusMap();
      mapping := found;
      if wasSettled {
        SettledHasNoMatch(branches, statuses, permissions, mapping);
      }
      ghost var before, rights := statuses, permissions;
      ApplyStatusMap(found);
      ghost var folded := permissions;
      EnsureChildKanbanStatusPermissions();
      if wasSettled {
        SettledIsComplete(branches, statuses, folded);
      }
      FoldedIsSettled(branchesBefore, before, mapping, statuses, permissions);
      MothersAreUnmapped(before, mapping, statuses);
      FlagsAreInherited(branches, statuses, rights, mapping, permissions);
      mapped := |found|;
    }

    /** The whole script, in one transaction that an exception rolls back.  After a run that
        goes through nothing is left to do, and where nothing is left to do a run changes
        nothing. */
    method Reconcile() returns (outcome: Outcome, ghost mapping: StatusMap)
      modifies this
      ensures outcome.NoActiveMotherStatus? <==> old(statuses) != map[] && !HasActiveMother(old(statuses))
      ensures outcome.NoStatuses? <==> old(statuses) == map[]
      ensures !outcome.Reconciled? ==>
                statuses == old(statuses) && orders == old(orders) && transitions == old(transitions)
                    && permissions == old(permissions)
      ensures outcome.NoActiveMotherStatus? ==> branches == old(branches)
      ensures !outcome.NoActiveMotherStatus? ==> MotherEnsured(old(branches), branches)
      ensures outcome.Reconciled? ==>
                && IsStatusMap(old(statuses), mapping) && outcome.mapped == |mapping|
                && OrdersMoved(old(orders), mapping, orders)
                && TransitionsFolded(mapping, old(transitions), transitions)
                && StatusesFolded(old(statuses), mapping, statuses)
                && PermissionsFolded(branches, statuses, old(permissions), mapping, permissions)
      ensures !outcome.NoActiveMotherStatus? ==> Settled(branches, statuses, permissions)
      ensures Settled(old(branches), old(statuses), old(permissions)) ==>
                && (outcome.Reconciled? ==> outcome.mapped == 0)
                && branches == old(branches) && statuses == old(statuses) && orders == old(orders)
                && transitions == old(transitions) && permissions == old(permissions)
    {
      hide *;
      mapping := map[];
      ghost var wasSettled := Settled(branches, statuses, permissions);
      var savedBranches := branches;
      EnsureMotherBranch();
      if wasSettled {
        SettledHasMother(savedBranches, statuses, permissions);
      }
      if |statuses| == 0 {
        NoStatusesAreSettled(savedBranches, permissions);
        return NoStatuses, mapping;
      }
      var active := set m | m in statuses && statuses[m].open && statuses[m].branch == MOTHER && statuses[m].active;
      ActiveMothers(statuses, active);
      if |active| == 0 {
        branches := savedBranches;
        return NoActiveMotherStatus, mapping;
      }
      var mapped;
      mapped, mapping := FoldStatuses(savedBranches);
      outcome := Reconciled(mapped);
    }

    ghost function Tables(): Tables
      reads this
    {
      TablesOf(branches, statuses, orders, transitions, permissions)
    }

    /** A second run changes nothing: the tables are as the first run left them. */
    method ReconcileTwice() returns (first: Outcome, second: Outcome, ghost between: Tables)
      modifies this
      ensures Tables() == between
      ensures first.Reconciled? ==>
                && MotherEnsured(old(branches), between.branches)
                && Settled(between.branches, between.statuses, between.permissions)
      ensures first.NoActiveMotherStatus? ==> between == old(Tables())
      ensures first.NoActiveMotherStatus? <==> second.NoActiveMotherStatus?
      ensures second.Reconciled? ==> second.mapped == 0
    {
      ghost var mapping;
      first, mapping := Reconcile();
      if first.Reconciled? {
        SettledHasMother(branches, statuses, permissions);
      }
      between := Tables();
      second, mapping := Reconcile();
    }
  }

  lemma MothersAreUnmapped(before: map<StatusId, Status>, mapping: StatusMap, after: map<StatusId, Status>)
    requires StatusesFolded(before, mapping, after)
    ensures forall m :: IsMotherStatus(after, m) ==> m !in mapping
  {
  }

  lemma ActiveMothers(statuses: map<StatusId, Status>, active: set<StatusId>)
    requires active == set m | m in statuses && statuses[m].open && statuses[m].branch == MOTHER && statuses[m].active
    ensures HasActiveMother(statuses) <==> active != {}
  {
    assert forall m :: m in active <==> IsMotherStatus(statuses, m) && statuses[m].active;
  }

  lemma SettledHasMother(branches: map<BranchId, Branch>, statuses: map<StatusId, Status>, perms: map<PermKey, Flags>)
    requires Settled(branches, statuses, perms)
    ensures WithMother(branches) == branches
    ensures statuses != map[] ==> HasActiveMother(statuses)
  {
  }

  lemma NoStatusesAreSettled(branches: map<BranchId, Branch>, perms: map<PermKey, Flags>)
    ensures Settled(WithMother(branches), map[], perms)
  {
  }

  lemma SettledHasNoMatch(branches: map<BranchId, Branch>, statuses: map<StatusId, Status>,
                          perms: map<PermKey, Flags>, mapping: StatusMap)
    requires Settled(branches, statuses, perms) && statuses != map[] && IsStatusMap(statuses, mapping)
    ensures mapping == map[]
  {
    hide Matches, Combinations, WithMother;
  }

  lemma SettledIsComplete(branches: map<BranchId, Branch>, statuses: map<StatusId, Status>, perms: map<PermKey, Flags>)
    requires Settled(branches, statuses, perms) && statuses != map[]
    ensures Completed(branches, statuses, perms) == perms
  {
    hide Matches, WithMother;
  }

  lemma NothingToFold(perms: map<PermKey, Flags>, rows: seq<Transition>)
    ensures FoldedPermissions(perms, map[]) == perms
    ensures TransitionsFolded(map[], rows, rows)
  {
  }

  /** After the fold no open child status matches an open mother status, and the mother
      statuses are as before. */
  lemma NoMatchIsLeft(before: map<StatusId, Status>, mapping: StatusMap, after: map<StatusId, Status>)
    requires IsStatusMap(before, mapping) && StatusesFolded(before, mapping, after)
    ensures forall c, m :: IsChildStatus(after, c) && IsMotherStatus(after, m) ==>
        !Matches(after[m], after[c])
    ensures forall m :: IsMotherStatus(before, m) ==> IsMotherStatus(after, m) && after[m] == before[m]
  {
    hide Matches;
    forall c, m | IsChildStatus(after, c) && IsMotherStatus(after, m)
      ensures !Matches(after[m], after[c])
    {
      assert c !in mapping && IsChildStatus(before, c) && IsMotherStatus(before, m);
    }
  }

  lemma FoldedIsSettled(branches: map<BranchId, Branch>, before: map<StatusId, Status>, mapping: StatusMap,
                        after: map<StatusId, Status>, perms: map<PermKey, Flags>)
    requires IsStatusMap(before, mapping) && StatusesFolded(before, mapping, after) && HasActiveMother(before)
    requires Combinations(WithMother(branches), after, perms) <= perms.Keys
    ensures Settled(WithMother(branches), after, perms)
  {
    NoMatchIsLeft(before, mapping, after);
    hide Matches, Combinations, IsStatusMap, StatusesFolded;
    assert WithMother(WithMother(branches)) == WithMother(branches);
    var m :| IsMotherStatus(before, m) && before[m].active;
    assert IsMotherStatus(after, m) && after[m].active;
  }
}
