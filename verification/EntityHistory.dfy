/** The entry points of the history service: recording an entity's creation, updates and
    deletion, and reading the lineage of a current value. */
module EntityHistory {
  import opened Wrappers
  import opened HistoryGraph
  import opened HistoryTables
  import opened HistoryValues
  import opened HistoryReplay
  import opened HistoryStore
  import Diff = HistoryDiff

  /** Conventions of the service that are library code or tables of names: the value type
      inferred for a field, the table a field refers to, and the printing of scalars. */
  datatype Conventions = Conventions(
    infer: (string, Diff.Leaf) -> ValueType,
    refTable: string -> Option<string>,
    show_: Diff.Leaf -> string)

  function TextOf(conv: Conventions, leaf: Diff.Leaf): Option<string> {
    match leaf
    case Null => None
    case Str(s) => Some(s)
    case Json(text) => Some(text)
    case _ => Some(conv.show_(leaf))
  }

  function ToHistoryScalar(conv: Conventions, path: string, t: ValueType, leaf: Diff.Leaf): Scalar {
    Scalar(t, TextOf(conv, leaf), None, conv.refTable(path),
           if t == ReferenceType && leaf.Str? then Some(leaf.s) else None, None)
  }

  function ToChange(conv: Conventions, table: string, pk: string, c: Diff.FieldChange): ChangeWrite {
    var t := conv.infer(c.path, if c.after != Diff.Null then c.after else c.before);
    ChangeWrite(Key(table, pk, c.path), c.operation, t, Some("entity"),
                Some(ToHistoryScalar(conv, c.path, t, c.before)), Some(ToHistoryScalar(conv, c.path, t, c.after)), None)
  }

  function ToChanges(conv: Conventions, table: string, pk: string,
                     changes: seq<Diff.FieldChange>): seq<ChangeWrite> {
    seq(|changes|, i requires 0 <= i < |changes| => ToChange(conv, table, pk, changes[i]))
  }

  // What the index shows of an entity

  ghost function CurrentText(current: map<Key, Current>, key: Key): Option<string> {
    if key in current then current[key].shown.after.text else None
  }

  /** A field whose values are tracked and stored as they are. */
  ghost predicate IsPlain(fields: FieldMap, key: Key) {
    var field := FieldOf(fields, key);
    field.Some? ==> field.value.trackCurrent && field.value.redaction == Plain
  }

  ghost predicate IsTracked(fields: FieldMap, key: Key) {
    FieldOf(fields, key).Some? ==> FieldOf(fields, key).value.trackCurrent
  }

  /** Does the text stand for the leaf?  A string and JSON text stand for themselves, other
      scalars are printed, and null has no text. */
  ghost predicate StandsFor(conv: Conventions, leaf: Diff.Leaf, text: Option<string>) {
    && (leaf == Diff.Null <==> text == None)
    && (forall s :: leaf == Diff.Str(s) || leaf == Diff.Json(s) ==> text == Some(s))
    && (leaf.Bool? || leaf.Num? || leaf.Date? ==> text == Some(conv.show_(leaf)))
  }

  /** The index shows the value of the path in a flat record, missing values as null. */
  ghost predicate Shows(current: map<Key, Current>, conv: Conventions, key: Key, flat: map<string, Diff.Leaf>) {
    StandsFor(conv, Diff.At(flat, key.path), CurrentText(current, key))
  }

  /** Different strings at a path are told apart by the index. */
  lemma StringsAreTold(one: map<Key, Current>, two: map<Key, Current>, conv: Conventions, key: Key,
                       s: string, t: string, flatOne: map<string, Diff.Leaf>, flatTwo: map<string, Diff.Leaf>)
    requires Shows(one, conv, key, flatOne) && Shows(two, conv, key, flatTwo)
    requires Diff.At(flatOne, key.path) == Diff.Str(s) && Diff.At(flatTwo, key.path) == Diff.Str(t)
    ensures key in one && key in two && one[key].shown.after.text == Some(s) && two[key].shown.after.text == Some(t)
    ensures s != t ==> one[key].shown != two[key].shown
  {
  }

  /** The last change of a path in a list of changes. */
  lemma {:induction false} LastChangeOf(changes: seq<Diff.FieldChange>, path: string) returns (i: nat)
    requires exists c :: c in changes && c.path == path
    ensures i < |changes| && changes[i].path == path
    ensures forall j :: i < j < |changes| ==> changes[j].path != path
    decreases |changes|
  {
    var n := |changes| - 1;
    if changes[n].path == path {
      i := n;
    } else {
      i := LastChangeOf(changes[..n], path);
    }
  }

  /** What the log rows of an entity's changes make the index show for one path. */
  lemma EntriesShow(lib: Library, fields: FieldMap, conv: Conventions, table: string, pk: string,
                    before: map<string, Diff.Leaf>, after: map<string, Diff.Leaf>, paths: seq<string>,
                    operation: Diff.Operation, log: seq<LogEntry>, entries: seq<LogEntry>, eventId: nat, path: string)
    requires var changes := Diff.ChangesOf(before, after, paths, operation);
             |entries| == |changes| && EntriesFor(lib, fields, ToChanges(conv, table, pk, changes), entries, eventId)
    ensures var key, shows := Key(table, pk, path), Diff.Differs(before, after, path, operation);
            && (!(path in paths && shows) ==> TextAt(Replay(log + entries), key) == TextAt(Replay(log), key)
                                              && (key in Replay(log + entries) <==> key in Replay(log)))
            && (path in paths && shows && IsPlain(fields, key) && operation in {Diff.Insert, Diff.Update} ==>
                  StandsFor(conv, Diff.At(after, path), TextAt(Replay(log + entries), key)))
            && (path in paths && shows && IsTracked(fields, key) && operation in {Diff.Insert, Diff.Update} ==>
                  && key in Replay(log + entries)
                  && exists i :: 0 <= i < |entries| && Replay(log + entries)[key] == ShownBy(entries[i]))
            && (path in paths && shows && operation == Diff.Delete && Diff.At(after, path) == Diff.Null
                && (FieldOf(fields, key).Some? ==> FieldOf(fields, key).value.trackCurrent) ==>
                  key !in Replay(log + entries))
  {
    var changes := Diff.ChangesOf(before, after, paths, operation);
    var key := Key(table, pk, path);
    var expected := Diff.ChangeAt(before, after, path, operation);
    Diff.ChangesAreDifferences(before, after, paths, operation, expected);
    hide Replay, PrepareScalar, Diff.ChangesOf;
    if path in paths && Diff.Differs(before, after, path, operation) {
      var i := LastChangeOf(changes, path);
      Diff.ChangesAreDifferences(before, after, paths, operation, changes[i]);
      assert entries[i] == EntryFor(lib, fields, ToChange(conv, table, pk, expected), entries[i].id, eventId);
      forall j | i < j < |entries|
        ensures entries[j].key != key
      {
        assert entries[j].key.path == changes[j].path;
      }
      PreparedForEntity(lib, fields, conv, table, pk, expected);
      if entries[i].tracked {
        ReplayTakes(log, entries, i);
      }
    } else {
      forall e | e in entries
        ensures e.key != key
      {
        var j :| 0 <= j < |entries| && entries[j] == e;
        Diff.ChangesAreDifferences(before, after, paths, operation, changes[j]);
        assert entries[j].key.path == changes[j].path;
      }
      ReplaySkips(log, entries, key);
    }
  }

  /** The stored text of a plain field's change is the new value's; a change to null has
      neither hash nor reference, whatever the redaction. */
  lemma PreparedForEntity(lib: Library, fields: FieldMap, conv: Conventions, table: string, pk: string,
                          c: Diff.FieldChange)
    ensures var change := ToChange(conv, table, pk, c);
            var after := PrepareScalar(lib, ScalarOr(change.after, change.valueType), FieldOf(fields, change.key));
            && (IsPlain(fields, change.key) ==> StandsFor(conv, c.after, after.text))
            && (c.after == Diff.Null ==> after.hash == None && after.refPk == None)
  {
  }

  /** The log row of one field of an entity: its key, operation and type, which is inferred from
      the new value, or from the old one when the new one is null; and both values. */
  ghost predicate IsFieldRow(conv: Conventions, fields: FieldMap, e: LogEntry, table: string, pk: string,
                             operation: Diff.Operation, before: Diff.Leaf, after: Diff.Leaf) {
    && e.key.table == table && e.key.pk == pk && e.operation == operation
    && e.valueType == conv.infer(e.key.path, if after == Diff.Null then before else after)
    && (IsPlain(fields, e.key) ==> StandsFor(conv, before, e.before.text) && StandsFor(conv, after, e.after.text))
    && RefersTo(conv, fields, e, before, e.before) && RefersTo(conv, fields, e, after, e.after)
  }

  /** A string in a reference field is the key referred to; nothing else refers. */
  ghost predicate RefersTo(conv: Conventions, fields: FieldMap, e: LogEntry, leaf: Diff.Leaf, kept: Prepared) {
    && (e.valueType != ReferenceType ==> kept.refPk == None)
    && (e.valueType == ReferenceType && !IsOmitted(fields, e.key) ==>
          forall s :: kept.refPk == Some(s) <==> leaf == Diff.Str(s))
    && (conv.refTable(e.key.path).Some? ==> kept.refTable == conv.refTable(e.key.path))
  }

  lemma ChangeIsFieldRow(lib: Library, fields: FieldMap, conv: Conventions, table: string, pk: string,
                         c: Diff.FieldChange, e: LogEntry, eventId: nat)
    requires e == EntryFor(lib, fields, ToChange(conv, table, pk, c), e.id, eventId)
    ensures e.key.path == c.path && IsFieldRow(conv, fields, e, table, pk, c.operation, c.before, c.after)
  {
    hide NormalizeValue;
  }

  /** The event has a row for the entity in its role, and all its changes hang on both. */
  ghost predicate EntityJoined(n: Net, entries: seq<LogEntry>, eventId: nat, role: EntityRole) {
    exists row: RowRef ::
      && row.EntityRow? && row in n.rows && JoinsEntity(n, EventRow(eventId), row, role)
      && forall e :: e in entries ==>
          && e.eventId == eventId && HasEdge(n, EventRow(eventId), ChangeRow(e.id), Changed)
          && HasEdge(n, ChangeRow(e.id), row, Affected)
  }

  lemma OneEntityJoined(n: Net, payload: EventWrite, eventId: nat, entries: seq<LogEntry>, parts: Parts,
                        role: EntityRole)
    requires EventJoined(n, payload, EventRow(eventId), entries, parts)
    requires payload.entities == [EntityWrite(Some("entity"), role)]
    requires forall c :: c in payload.changes ==> c.entityKey == Some("entity")
    requires forall e :: e in entries ==> e.eventId == eventId
    ensures EntityJoined(n, entries, eventId, role)
  {
    hide HasEdge, JoinsEntity;
    var row := parts.entities[0];
    assert JoinsEntity(n, EventRow(eventId), row, payload.entities[0].role);
    assert IsEntityFor(payload.entities, "entity", 0);
    forall e | e in entries
      ensures HasEdge(n, EventRow(eventId), ChangeRow(e.id), Changed) && HasEdge(n, ChangeRow(e.id), row, Affected)
    {
      var i :| 0 <= i < |entries| && entries[i] == e;
      assert payload.changes[i] in payload.changes;
      assert ChangeJoined(n, payload, EventRow(eventId), ChangeRow(entries[i].id), i, parts);
    }
  }

  /** The rows are those of the listed paths whose values differ (of all listed paths, for an
      operation other than update). */
  ghost predicate RowsOfDiff(conv: Conventions, fields: FieldMap, entries: seq<LogEntry>, table: string, pk: string,
                             before: map<string, Diff.Leaf>, after: map<string, Diff.Leaf>, paths: seq<string>,
                             operation: Diff.Operation) {
    && (forall path :: path in paths && (operation != Diff.Update || Diff.At(before, path) != Diff.At(after, path)) ==>
          exists e :: e in entries && e.key.path == path)
    && (forall e :: e in entries ==> IsRowOfDiff(conv, fields, e, table, pk, before, after, paths, operation))
  }

  ghost predicate IsRowOfDiff(conv: Conventions, fields: FieldMap, e: LogEntry, table: string, pk: string,
                              before: map<string, Diff.Leaf>, after: map<string, Diff.Leaf>, paths: seq<string>,
                              operation: Diff.Operation) {
    && e.key.path in paths
    && (operation != Diff.Update || Diff.At(before, e.key.path) != Diff.At(after, e.key.path))
    && IsFieldRow(conv, fields, e, table, pk, operation, Diff.At(before, e.key.path), Diff.At(after, e.key.path))
  }

  lemma EntriesAreRowsOfDiff(lib: Library, fields: FieldMap, conv: Conventions, table: string, pk: string,
                             before: map<string, Diff.Leaf>, after: map<string, Diff.Leaf>, paths: seq<string>,
                             operation: Diff.Operation, entries: seq<LogEntry>, eventId: nat)
    requires var changes := Diff.ChangesOf(before, after, paths, operation);
             |entries| == |changes| && EntriesFor(lib, fields, ToChanges(conv, table, pk, changes), entries, eventId)
    ensures RowsOfDiff(conv, fields, entries, table, pk, before, after, paths, operation)
  {
    var changes := Diff.ChangesOf(before, after, paths, operation);
    hide Diff.ChangesOf, EntriesFor, ToChanges, IsRowOfDiff;
    forall e | e in entries
      ensures IsRowOfDiff(conv, fields, e, table, pk, before, after, paths, operation)
    {
      var i :| 0 <= i < |entries| && entries[i] == e;
      EntryIsRowOfDiff(lib, fields, conv, table, pk, before, after, paths, operation, entries, eventId, i);
    }
    forall path | path in paths && (operation != Diff.Update || Diff.At(before, path) != Diff.At(after, path))
      ensures exists e :: e in entries && e.key.path == path
    {
      DiffHasRow(lib, fields, conv, table, pk, before, after, paths, operation, entries, eventId, path);
    }
  }

  lemma EntryIsRowOfDiff(lib: Library, fields: FieldMap, conv: Conventions, table: string, pk: string,
                         before: map<string, Diff.Leaf>, after: map<string, Diff.Leaf>, paths: seq<string>,
                         operation: Diff.Operation, entries: seq<LogEntry>, eventId: nat, i: nat)
    requires var changes := Diff.ChangesOf(before, after, paths, operation);
             |entries| == |changes| && EntriesFor(lib, fields, ToChanges(conv, table, pk, changes), entries, eventId)
    requires i < |entries|
    ensures IsRowOfDiff(conv, fields, entries[i], table, pk, before, after, paths, operation)
  {
    var changes := Diff.ChangesOf(before, after, paths, operation);
    hide Diff.ChangesOf, EntryFor, ToChange, IsFieldRow;
    ChangeIsFieldRow(lib, fields, conv, table, pk, changes[i], entries[i], eventId);
    Diff.ChangesAreDifferences(before, after, paths, operation, changes[i]);
  }

  lemma DiffHasRow(lib: Library, fields: FieldMap, conv: Conventions, table: string, pk: string,
                   before: map<string, Diff.Leaf>, after: map<string, Diff.Leaf>, paths: seq<string>,
                   operation: Diff.Operation, entries: seq<LogEntry>, eventId: nat, path: string)
    requires var changes := Diff.ChangesOf(before, after, paths, operation);
             |entries| == |changes| && EntriesFor(lib, fields, ToChanges(conv, table, pk, changes), entries, eventId)
    requires path in paths && (operation != Diff.Update || Diff.At(before, path) != Diff.At(after, path))
    ensures exists e :: e in entries && e.key.path == path
  {
    var changes := Diff.ChangesOf(before, after, paths, operation);
    hide Diff.ChangesOf, PrepareScalar;
    var c := Diff.ChangeAt(before, after, path, operation);
    Diff.ChangesAreDifferences(before, after, paths, operation, c);
    var i :| 0 <= i < |changes| && changes[i] == c;
    assert entries[i] in entries && entries[i].key.path == path;
  }

  /** How recording the step from one flat record to another moves the index at one path: a
      path that is listed and differs takes the new value, or goes away when a deletion clears
      it; any other path keeps what it showed. */
  ghost predicate IndexFollows(was: map<Key, Current>, now: map<Key, Current>, fields: FieldMap, conv: Conventions,
                               key: Key,
                               before: map<string, Diff.Leaf>, after: map<string, Diff.Leaf>,
                               listed: bool, operation: Diff.Operation) {
    var recorded := listed && Diff.Differs(before, after, key.path, operation);
    && (!recorded ==> CurrentText(now, key) == CurrentText(was, key) && (key in now <==> key in was))
    && (recorded && IsPlain(fields, key) && operation in {Diff.Insert, Diff.Update} ==>
          Shows(now, conv, key, after))
    && (recorded && IsTracked(fields, key) && operation in {Diff.Insert, Diff.Update} ==> key in now)
    && (recorded && operation == Diff.Delete && Diff.At(after, key.path) == Diff.Null && IsTracked(fields, key)
        ==> key !in now)
  }

  /** No value of another entity moves. */
  ghost predicate OthersUntouched(was: map<Key, Current>, now: map<Key, Current>, table: string, pk: string) {
    forall k: Key :: k.table != table || k.pk != pk ==>
      (k in now <==> k in was) && (k in now ==> now[k].shown == was[k].shown)
  }

  lemma OthersSkip(lib: Library, fields: FieldMap, conv: Conventions, table: string, pk: string,
                   changes: seq<Diff.FieldChange>, log: seq<LogEntry>, entries: seq<LogEntry>, eventId: nat, k: Key)
    requires k.table != table || k.pk != pk
    requires |entries| == |changes| && EntriesFor(lib, fields, ToChanges(conv, table, pk, changes), entries, eventId)
    ensures k in Replay(log + entries) <==> k in Replay(log)
    ensures k in Replay(log) ==> Replay(log + entries)[k] == Replay(log)[k]
  {
    hide Replay, PrepareScalar;
    forall e | e in entries
      ensures e.key != k
    {
      var i :| 0 <= i < |entries| && entries[i] == e;
      assert e.key == Key(table, pk, changes[i].path);
    }
    ReplaySkips(log, entries, k);
  }

  lemma UntouchedTwice(one: map<Key, Current>, two: map<Key, Current>, three: map<Key, Current>,
                       table: string, pk: string)
    requires OthersUntouched(one, two, table, pk) && OthersUntouched(two, three, table, pk)
    ensures OthersUntouched(one, three, table, pk)
  {
  }

  /** The log has a row for the path with both values. */
  ghost predicate IsLogged(conv: Conventions, fields: FieldMap, entries: seq<LogEntry>, table: string, pk: string,
                           path: string, operation: Diff.Operation, before: Diff.Leaf, after: Diff.Leaf) {
    exists e :: e in entries && e.key.path == path
                && IsFieldRow(conv, fields, e, table, pk, operation, before, after)
  }

  lemma DefaultPathsAreLogged(conv: Conventions, fields: FieldMap, entries: seq<LogEntry>, table: string, pk: string,
                              before: map<string, Diff.Leaf>, after: map<string, Diff.Leaf>, paths: seq<string>,
                              operation: Diff.Operation)
    requires RowsOfDiff(conv, fields, entries, table, pk, before, after, paths, operation)
    requires Diff.Enumerates(paths, Diff.DefaultPaths(before, after))
    ensures forall path | (path in before || path in after) && !Diff.IsSystemTimestamp(path)
              && (operation != Diff.Update || Diff.At(before, path) != Diff.At(after, path)) ::
              IsLogged(conv, fields, entries, table, pk, path, operation, Diff.At(before, path), Diff.At(after, path))
  {
    hide IsFieldRow, Diff.IsSystemTimestamp;
  }

  /** Builds the changes between two records and writes them as one event. */
  method RecordEntity(store: HistoryStore, conv: Conventions, table: string, pk: string, role: EntityRole,
                      before: seq<Diff.Entry>, after: seq<Diff.Entry>, fields: Option<seq<string>>,
                      operation: Diff.Operation, skipEmpty: bool)
    returns (ghost paths: seq<string>, ghost entries: seq<LogEntry>, ghost eventId: nat)
    requires store.Valid()
    modifies store`rows, store`nodes, store`edges, store`next, store`log, store`current
    ensures store.Valid()
    ensures fields.Some? ==> paths == fields.value
    ensures fields.None? ==>
              Diff.Enumerates(paths, Diff.DefaultPaths(Diff.Flatten(before, ""), Diff.Flatten(after, "")))
    ensures forall path :: IndexFollows(old(store.current), store.current, store.trackedFields, conv,
                                        Key(table, pk, path), Diff.Flatten(before, ""), Diff.Flatten(after, ""),
                                        path in paths, operation)
    ensures OthersUntouched(old(store.current), store.current, table, pk)
    ensures store.log == old(store.log) + entries
    ensures RowsOfDiff(conv, store.trackedFields, entries, table, pk, Diff.Flatten(before, ""), Diff.Flatten(after, ""),
                       paths, operation)
    ensures entries != [] || !skipEmpty ==> EntityJoined(store.TheNet(), entries, eventId, role)
    ensures entries == [] && skipEmpty ==>
              store.rows == old(store.rows) && store.nodes == old(store.nodes) && store.edges == old(store.edges)
  {
    hide Replay, PrepareScalar, WellFormed, CurrentRowsMatch, LogRowsExist, ProducersLinked, ChangesLinked;
    hide EventRecorded, EventJoined, EntityJoined, RowsOfDiff, IsLogRow, KeepsOthers, EntriesFor;
    hide Diff.ChangesOf, Diff.Flatten, Diff.Differs, Diff.DefaultPaths;
    ghost var flatBefore, flatAfter := Diff.Flatten(before, ""), Diff.Flatten(after, "");
    var changes;
    changes, paths := Diff.BuildEntityChanges(before, after, fields, operation);
    ghost var log, current := store.log, store.current;
    entries, eventId := [], 0;
    assert log[..|log|] == log;
    if skipEmpty && |changes| == 0 {
      NoEntries(store.lib, store.trackedFields, ToChanges(conv, table, pk, changes));
      assert log + [] == log;
    } else {
      var id;
      ghost var parts;
      var entity := EntityWrite(Some("entity"), role);
      id, entries, parts := store.CreateEvent(EventWrite([], [entity], [], ToChanges(conv, table, pk, changes)));
      eventId := id;
      EntriesNameEvent(store.lib, store.trackedFields, ToChanges(conv, table, pk, changes), entries, eventId);
      OneEntityJoined(store.TheNet(), EventWrite([], [entity], [], ToChanges(conv, table, pk, changes)), eventId,
                      entries, parts, role);
    }
    EntriesAreRowsOfDiff(store.lib, store.trackedFields, conv, table, pk, flatBefore, flatAfter, paths, operation,
                         entries, eventId);
    assert store.log[..|store.log|] == store.log == log + entries;
    forall path
      ensures IndexFollows(current, store.current, store.trackedFields, conv, Key(table, pk, path),
                           flatBefore, flatAfter, path in paths, operation)
    {
      EntriesShow(store.lib, store.trackedFields, conv, table, pk, flatBefore, flatAfter, paths, operation, log,
                  entries, eventId, path);
    }
    forall k: Key | k.table != table || k.pk != pk
      ensures k in Replay(log + entries) <==> k in Replay(log)
      ensures k in Replay(log) ==> Replay(log + entries)[k] == Replay(log)[k]
    {
      OthersSkip(store.lib, store.trackedFields, conv, table, pk, changes, log, entries, eventId, k);
    }
  }

  /** Creation: every plain field of the values is shown from now on. */
  method RecordEntityCreated(store: HistoryStore, conv: Conventions, table: string, pk: string,
                             values: seq<Diff.Entry>)
    returns (ghost entries: seq<LogEntry>, ghost eventId: nat)
    requires store.Valid()
    modifies store`rows, store`nodes, store`edges, store`next, store`log, store`current
    ensures store.Valid()
    ensures store.log == old(store.log) + entries && EntityJoined(store.TheNet(), entries, eventId, RoleCreated)
    ensures forall path | path in Diff.Flatten(values, "") && !Diff.IsSystemTimestamp(path) ::
              IsLogged(conv, store.trackedFields, entries, table, pk, path, Diff.Insert, Diff.Null,
                       Diff.Flatten(values, "")[path])
    ensures OthersUntouched(old(store.current), store.current, table, pk)
    ensures forall path | IsPlain(store.trackedFields, Key(table, pk, path)) && !Diff.IsSystemTimestamp(path)
              && (path in Diff.Flatten(values, "") || CurrentText(old(store.current), Key(table, pk, path)) == None) ::
              Shows(store.current, conv, Key(table, pk, path), Diff.Flatten(values, ""))
    ensures forall path | path in Diff.Flatten(values, "") && !Diff.IsSystemTimestamp(path)
              && IsTracked(store.trackedFields, Key(table, pk, path)) ::
              Key(table, pk, path) in store.current
    ensures forall path, s | IsPlain(store.trackedFields, Key(table, pk, path)) && !Diff.IsSystemTimestamp(path)
              && path in Diff.Flatten(values, "") && Diff.Flatten(values, "")[path] == Diff.Str(s) ::
              Key(table, pk, path) in store.current && store.current[Key(table, pk, path)].shown.after.text == Some(s)
  {
    hide Diff.Flatten, Consistent, OthersUntouched, EntityJoined, IsFieldRow, RowsOfDiff, IsLogged;
    NothingFlat();
    ghost var paths;
    paths, entries, eventId := RecordEntity(store, conv, table, pk, RoleCreated, [], values, None, Diff.Insert, false);
    DefaultPathsAreLogged(conv, store.trackedFields, entries, table, pk, map[], Diff.Flatten(values, ""), paths,
                          Diff.Insert);
  }

  lemma NothingFlat()
    ensures Diff.Flatten([], "") == map[]
  {
  }

  /** Update without a field list: where the index showed the old record, it shows the new one. */
  method RecordEntityUpdated(store: HistoryStore, conv: Conventions, table: string, pk: string,
                             before: seq<Diff.Entry>, after: seq<Diff.Entry>)
    returns (ghost entries: seq<LogEntry>, ghost eventId: nat)
    requires store.Valid()
    modifies store`rows, store`nodes, store`edges, store`next, store`log, store`current
    ensures store.Valid()
    ensures store.log == old(store.log) + entries
    ensures entries != [] ==> EntityJoined(store.TheNet(), entries, eventId, RoleOther)
    ensures entries == [] ==>
              store.rows == old(store.rows) && store.nodes == old(store.nodes) && store.edges == old(store.edges)
    ensures forall path | !Diff.IsSystemTimestamp(path)
              && Diff.At(Diff.Flatten(before, ""), path) != Diff.At(Diff.Flatten(after, ""), path) ::
              IsLogged(conv, store.trackedFields, entries, table, pk, path, Diff.Update,
                       Diff.At(Diff.Flatten(before, ""), path), Diff.At(Diff.Flatten(after, ""), path))
    ensures OthersUntouched(old(store.current), store.current, table, pk)
    ensures forall path | IsPlain(store.trackedFields, Key(table, pk, path)) && !Diff.IsSystemTimestamp(path)
              && Shows(old(store.current), conv, Key(table, pk, path), Diff.Flatten(before, "")) ::
              Shows(store.current, conv, Key(table, pk, path), Diff.Flatten(after, ""))
    ensures forall path | Diff.At(Diff.Flatten(before, ""), path) != Diff.At(Diff.Flatten(after, ""), path)
              && !Diff.IsSystemTimestamp(path) && IsTracked(store.trackedFields, Key(table, pk, path)) ::
              Key(table, pk, path) in store.current
    ensures forall path, s | IsPlain(store.trackedFields, Key(table, pk, path)) && !Diff.IsSystemTimestamp(path)
              && Diff.At(Diff.Flatten(before, ""), path) != Diff.Str(s) == Diff.At(Diff.Flatten(after, ""), path) ::
              Key(table, pk, path) in store.current && store.current[Key(table, pk, path)].shown.after.text == Some(s)
  {
    hide Diff.Flatten, Consistent, OthersUntouched, EntityJoined, IsFieldRow, RowsOfDiff, IsLogged;
    ghost var paths;
    paths, entries, eventId := RecordEntity(store, conv, table, pk, RoleOther, before, after, None, Diff.Update, true);
    DefaultPathsAreLogged(conv, store.trackedFields, entries, table, pk, Diff.Flatten(before, ""),
                          Diff.Flatten(after, ""), paths, Diff.Update);
  }

  /** Deletion without a field list: no tracked field of the entity is left in the index. */
  method RecordEntityDeleted(store: HistoryStore, conv: Conventions, table: string, pk: string,
                             before: seq<Diff.Entry>)
    returns (ghost entries: seq<LogEntry>, ghost eventId: nat)
    requires store.Valid()
    modifies store`rows, store`nodes, store`edges, store`next, store`log, store`current
    ensures store.Valid()
    ensures store.log == old(store.log) + entries && EntityJoined(store.TheNet(), entries, eventId, RoleDeleted)
    ensures forall path | path in Diff.Flatten(before, "") && !Diff.IsSystemTimestamp(path) ::
              IsLogged(conv, store.trackedFields, entries, table, pk, path, Diff.Delete,
                       Diff.Flatten(before, "")[path], Diff.Null)
    ensures OthersUntouched(old(store.current), store.current, table, pk)
    ensures forall path | path in Diff.Flatten(before, "") && !Diff.IsSystemTimestamp(path)
              && IsTracked(store.trackedFields, Key(table, pk, path)) ::
              Key(table, pk, path) !in store.current
  {
    hide Diff.Flatten, Consistent, OthersUntouched, EntityJoined, IsFieldRow, RowsOfDiff, IsLogged;
    NothingFlat();
    ghost var paths;
    paths, entries, eventId := RecordEntity(store, conv, table, pk, RoleDeleted, before, [], None, Diff.Delete, false);
    DefaultPathsAreLogged(conv, store.trackedFields, entries, table, pk, Diff.Flatten(before, ""), map[], paths,
                          Diff.Delete);
  }

  /** The life of an entity: after its creation and any chain of updates, the index shows the
      latest record at every plain path that the first record has or that was not in use. */
  method RecordLife(store: HistoryStore, conv: Conventions, table: string, pk: string,
                    states: seq<seq<Diff.Entry>>)
    requires store.Valid() && states != []
    modifies store`rows, store`nodes, store`edges, store`next, store`log, store`current
    ensures store.Valid()
    ensures OthersUntouched(old(store.current), store.current, table, pk)
    ensures forall path | IsPlain(store.trackedFields, Key(table, pk, path)) && !Diff.IsSystemTimestamp(path)
              && (path in Diff.Flatten(states[0], "")
                  || CurrentText(old(store.current), Key(table, pk, path)) == None) ::
              Shows(store.current, conv, Key(table, pk, path), Diff.Flatten(states[|states| - 1], ""))
    ensures forall path, s | IsPlain(store.trackedFields, Key(table, pk, path)) && !Diff.IsSystemTimestamp(path)
              && (path in Diff.Flatten(states[0], "")
                  || CurrentText(old(store.current), Key(table, pk, path)) == None)
              && Diff.At(Diff.Flatten(states[|states| - 1], ""), path) == Diff.Str(s) ::
              Key(table, pk, path) in store.current && store.current[Key(table, pk, path)].shown.after.text == Some(s)
  {
    hide Diff.Flatten, Consistent, OthersUntouched, EntityJoined, IsFieldRow, RowsOfDiff, IsLogged;
    ghost var entries, eventId := RecordEntityCreated(store, conv, table, pk, states[0]);
    for i := 1 to |states|
      invariant store.Valid() && OthersUntouched(old(store.current), store.current, table, pk)
      invariant forall path | IsPlain(store.trackedFields, Key(table, pk, path)) && !Diff.IsSystemTimestamp(path)
                  && (path in Diff.Flatten(states[0], "")
                      || CurrentText(old(store.current), Key(table, pk, path)) == None) ::
                  Shows(store.current, conv, Key(table, pk, path), Diff.Flatten(states[i - 1], ""))
    {
      ghost var reached := store.current;
      entries, eventId := RecordEntityUpdated(store, conv, table, pk, states[i - 1], states[i]);
      UntouchedTwice(old(store.current), reached, store.current, table, pk);
    }
  }

  // Relations

  function Linking(toTable: string, toPk: string, toLabel: Option<string>): Scalar {
    Scalar(ReferenceType, Some(toPk), None, Some(toTable), Some(toPk), toLabel)
  }

  const NOTHING := Scalar(NullType, None, None, None, None, None)

  function RelationChange(key: Key, toTable: string, toPk: string, toLabel: Option<string>, link: bool): ChangeWrite {
    var to := Linking(toTable, toPk, toLabel);
    if link then ChangeWrite(key, Diff.Link, ReferenceType, Some("from"), Some(NOTHING), Some(to), None)
    else ChangeWrite(key, Diff.Unlink, NullType, Some("from"), Some(to), Some(NOTHING), None)
  }

  ghost predicate IsOmitted(fields: FieldMap, key: Key) {
    FieldOf(fields, key).Some? && FieldOf(fields, key).value.redaction == Omit
  }

  /** The log row of a link says nothing before and the reference after; that of an unlink the
      other way around. */
  ghost predicate IsRelationRow(lib: Library, fields: FieldMap, e: LogEntry, key: Key, toTable: string, toPk: string,
                                toLabel: Option<string>, link: bool) {
    && e.key == key
    && (link ==> e.operation == Diff.Link && e.valueType == ReferenceType)
    && (!link ==> e.operation == Diff.Unlink && e.valueType == NullType)
    && IsReferenceTo(lib, fields, key, toTable, toPk, toLabel, if link then e.after else e.before)
    && IsNoReference(if link then e.before else e.after)
  }

  ghost predicate IsReferenceTo(lib: Library, fields: FieldMap, key: Key, toTable: string, toPk: string,
                                toLabel: Option<string>, kept: Prepared) {
    && kept.refTable == Some(toTable)
    && (!IsOmitted(fields, key) ==> kept.refPk == Some(toPk))
    && (IsPlain(fields, key) ==> kept.text == Some(toPk) && kept.refLabel == toLabel)
    && IsKept(lib, Scalar(ReferenceType, Some(toPk), None, Some(toTable), Some(toPk), toLabel), FieldOf(fields, key),
              kept)
  }

  ghost predicate IsNoReference(kept: Prepared) {
    kept.text == None && kept.hash == None && kept.refPk == None && kept.refLabel == None
  }

  lemma RelationEntry(lib: Library, fields: FieldMap, key: Key, toTable: string, toPk: string,
                      toLabel: Option<string>, link: bool,
                      id: nat, eventId: nat)
    ensures var e := EntryFor(lib, fields, RelationChange(key, toTable, toPk, toLabel, link), id, eventId);
            && IsRelationRow(lib, fields, e, key, toTable, toPk, toLabel, link)
            && e.tracked == IsTracked(fields, key) && (Clears(e.operation, e.after) <==> !link)
  {
  }

  /** The change hangs on the entity the relation starts from, which the event affects; the
      event links or unlinks the entity it leads to. */
  ghost predicate RelationJoined(n: Net, e: LogEntry, link: bool) {
    exists from: RowRef, to: RowRef ::
      && from.EntityRow? && to.EntityRow? && from in n.rows && to in n.rows
      && HasEdge(n, EventRow(e.eventId), from, Affected)
      && (link ==> HasEdge(n, EventRow(e.eventId), to, Linked))
      && (!link ==> HasEdge(n, EventRow(e.eventId), to, Unlinked))
      && HasEdge(n, EventRow(e.eventId), ChangeRow(e.id), Changed)
      && HasEdge(n, ChangeRow(e.id), from, Affected)
  }

  lemma RelationIsJoined(n: Net, payload: EventWrite, eventId: nat, e: LogEntry, parts: Parts, link: bool)
    requires EventJoined(n, payload, EventRow(eventId), [e], parts) && e.eventId == eventId
    requires payload.entities == [EntityWrite(Some("from"), RoleOther),
                                  EntityWrite(Some("to"), if link then RoleLinked else RoleUnlinked)]
    requires |payload.changes| == 1 && payload.changes[0].entityKey == Some("from")
    ensures RelationJoined(n, e, link)
  {
    hide HasEdge;
    assert JoinsEntity(n, EventRow(eventId), parts.entities[0], payload.entities[0].role);
    assert JoinsEntity(n, EventRow(eventId), parts.entities[1], payload.entities[1].role);
    assert "from" != "to" by {
      assert |"from"| != |"to"|;
    }
    assert IsEntityFor(payload.entities, "from", 0);
    assert ChangeJoined(n, payload, EventRow(eventId), ChangeRow([e][0].id), 0, parts);
  }

  /** Linking shows the reference at the field, unlinking takes the field out of the index, and
      neither touches another field.  So an unlink undoes the link before it. */
  method RecordRelationChanged(store: HistoryStore, key: Key, toTable: string, toPk: string,
                               toLabel: Option<string>, link: bool)
    returns (ghost e: LogEntry)
    requires store.Valid()
    modifies store`rows, store`nodes, store`edges, store`next, store`log, store`current
    ensures store.Valid()
    ensures store.log == old(store.log) + [e] && RelationJoined(store.TheNet(), e, link)
    ensures IsRelationRow(store.lib, store.trackedFields, e, key, toTable, toPk, toLabel, link)
    ensures forall k :: k != key || !IsTracked(store.trackedFields, key) ==>
              && (k in store.current <==> k in old(store.current))
              && (k in store.current ==> store.current[k].shown == old(store.current)[k].shown)
    ensures IsTracked(store.trackedFields, key) ==> (key in store.current <==> link)
    ensures IsTracked(store.trackedFields, key) && link ==>
              && store.current[key].shown.changeId == e.id && store.current[key].shown.valueType == ReferenceType
              && IsReferenceTo(store.lib, store.trackedFields, key, toTable, toPk, toLabel,
                               store.current[key].shown.after)
  {
    hide Replay, Clears, PrepareScalar, WellFormed, CurrentRowsMatch, LogRowsExist, ProducersLinked, ChangesLinked;
    hide EventRecorded, EventJoined, RelationJoined, IsLogRow, KeepsOthers, RelationChange;
    ghost var log := store.log;
    assert log[..|log|] == log;
    var change := RelationChange(key, toTable, toPk, toLabel, link);
    var toRole := if link then RoleLinked else RoleUnlinked;
    var entities := [EntityWrite(Some("from"), RoleOther), EntityWrite(Some("to"), toRole)];
    var id;
    ghost var entries, parts;
    id, entries, parts := store.CreateEvent(EventWrite([], entities, [], [change]));
    e := entries[0];
    assert store.log[..|store.log|] == store.log == log + entries;
    assert entries == [EntryFor(store.lib, store.trackedFields, change, e.id, id)] == [e];
    EntityKeyOfRelation(key, toTable, toPk, toLabel, link);
    RelationIsJoined(store.TheNet(), EventWrite([], entities, [], [change]), id, e, parts, link);
    hide EntryFor;
    RelationEntry(store.lib, store.trackedFields, key, toTable, toPk, toLabel, link, e.id, id);
    if e.tracked {
      ReplayTakes(log, entries, 0);
    }
    forall k | k != key || !IsTracked(store.trackedFields, key)
      ensures k in Replay(log + entries) <==> k in Replay(log)
      ensures k in Replay(log) ==> Replay(log + entries)[k] == Replay(log)[k]
    {
      ReplaySkips(log, entries, k);
    }
  }

  lemma EntityKeyOfRelation(key: Key, toTable: string, toPk: string, toLabel: Option<string>, link: bool)
    ensures RelationChange(key, toTable, toPk, toLabel, link).entityKey == Some("from")
  {
  }

  lemma NoEntries(lib: Library, fields: FieldMap, changes: seq<ChangeWrite>)
    ensures EntriesFor(lib, fields, changes, [], 0)
  {
  }

  // Lineage

  datatype Lineage = Lineage(producingChange: LogEntry, start: NodeId, graph: Graph)

  function ClampDepth(depth: int): nat {
    var atLeast := if depth < 1 then 1 else depth;
    if atLeast > 8 then 8 else atLeast
  }

  /** The walk goes as deep as asked for, but at least one and at most eight steps. */
  ghost predicate IsReach(depth: int, limit: nat) {
    && (depth < 1 ==> limit == 1)
    && (1 <= depth <= 8 ==> limit == depth)
    && (depth > 8 ==> limit == 8)
  }

  /** The graph holds the nodes of the producing change and of that change's event, the edges
      that join them to the value's node, both ends of every edge it holds, and exactly the
      edges at nodes within the reach and the nodes within one step more. */
  ghost predicate TellsOrigin(n: Net, l: Lineage, depth: int) {
    var change, g := l.producingChange, l.graph;
    && (exists v :: v in g.nodes && IsNodeOf(n, v, ChangeRow(change.id)))
    && (exists v :: v in g.nodes && IsNodeOf(n, v, EventRow(change.eventId)))
    && (exists e :: e in g.edges && e.kind == CurrentValueOf && e.from == l.start
                    && IsNodeOf(n, e.to, ChangeRow(change.id)))
    && (exists e :: e in g.edges && e.kind == Changed && IsNodeOf(n, e.from, EventRow(change.eventId))
                    && IsNodeOf(n, e.to, ChangeRow(change.id)))
    && (forall e :: e in g.edges ==> e.from in g.nodes && e.to in g.nodes)
    && (forall limit: nat :: IsReach(depth, limit) ==> HoldsBall(n, l, limit))
  }

  ghost predicate HoldsBall(n: Net, l: Lineage, limit: nat) {
    && (forall v :: v in l.graph.nodes <==> Within(n.edges, l.start, v, limit + 1))
    && (forall e :: e in l.graph.edges <==>
          e in n.edges && (Within(n.edges, l.start, e.from, limit) || Within(n.edges, l.start, e.to, limit)))
  }

  lemma WalkTellsOrigin(n: Net, l: Lineage, id: nat, depth: int)
    requires WellFormed(n) && IsNodeOf(n, l.start, CurrentRow(id))
    requires HasEdge(n, CurrentRow(id), ChangeRow(l.producingChange.id), CurrentValueOf)
    requires HasEdge(n, EventRow(l.producingChange.eventId), ChangeRow(l.producingChange.id), Changed)
    requires l.graph == WalkGraph(n.nodes.Keys, n.edges, l.start, ClampDepth(depth))
    ensures TellsOrigin(n, l, depth)
  {
    hide WalkGraph, Within, HasEdge, Covered;
    WalkReachesProducer(n, l.start, CurrentRow(id), ChangeRow(l.producingChange.id),
                        EventRow(l.producingChange.eventId), ClampDepth(depth));
    WalkGraphIsBall(n.nodes.Keys, n.edges, l.start, ClampDepth(depth));
  }

  /** The lineage of the current value with the given id, if there is one.  Whatever depth is
      asked for, it tells the value's origin. */
  method GetValueLineage(store: HistoryStore, id: nat, depth: int) returns (r: Option<Lineage>)
    requires store.Valid()
    ensures r.Some? <==> exists k :: k in store.current && store.current[k].id == id
    ensures r.Some? ==> IsNodeOf(store.TheNet(), r.value.start, CurrentRow(id))
    ensures r.Some? ==>
              && r.value.producingChange in store.log && r.value.producingChange.key in store.current
              && store.current[r.value.producingChange.key] == Current(id, ShownBy(r.value.producingChange))
    ensures r.Some? ==> TellsOrigin(store.TheNet(), r.value, depth)
  {
    hide Consistent, TellsOrigin, WalkGraph;
    if key :| key in store.current && store.current[key].id == id {
      ghost var n := store.TheNet();
      ghost var i := Producer(n, store.log, store.current, key);
      CurrentNodeExists(n, store.log, store.current, key);
      var start :| start in store.nodes && store.nodes[start] == CurrentRow(id);
      var found :| found in store.log && found.id == store.current[key].shown.changeId;
      LogIdsAreUnique(n, store.log, store.current, i, found);
      var graph := WalkGraph(store.nodes.Keys, store.edges, start, ClampDepth(depth));
      r := Some(Lineage(found, start, graph));
      WalkTellsOrigin(n, r.value, id, depth);
    } else {
      r := None;
    }
  }

  lemma CurrentNodeExists(n: Net, log: seq<LogEntry>, current: map<Key, Current>, key: Key)
    requires Consistent(n, log, current, |log|, |log|) && key in current
    ensures HasNode(n, CurrentRow(current[key].id)) && WellFormed(n)
  {
  }

  lemma LogIdsAreUnique(n: Net, log: seq<LogEntry>, current: map<Key, Current>, i: nat, found: LogEntry)
    requires Consistent(n, log, current, |log|, |log|) && i < |log| && found in log && found.id == log[i].id
    ensures found == log[i]
  {
  }

  /** A current value's producing change is in the log, for the same key, and linked to it. */
  lemma Producer(n: Net, log: seq<LogEntry>, current: map<Key, Current>, key: Key) returns (i: nat)
    requires Consistent(n, log, current, |log|, |log|) && key in current
    ensures i < |log| && log[i].key == key && current[key].shown == ShownBy(log[i])
    ensures HasEdge(n, CurrentRow(current[key].id), ChangeRow(log[i].id), CurrentValueOf)
    ensures HasEdge(n, EventRow(log[i].eventId), ChangeRow(log[i].id), Changed)
  {
    hide WellFormed, CurrentRowsMatch, HasEdge, Replay, Clears;
    assert log[..|log|] == log;
    ReplayShowsLast(log, key);
    i :| 0 <= i < |log| && IsLastTracked(log, key, i);
  }

  /** The index of a valid store, told by the log alone.  After a last tracked change that is
      neither a deletion nor an unlink, the row is there and shows that change, also when the new
      value is null.  After a deletion or an unlink it is there exactly when the change carries a
      hash or a reference.  Without a tracked change there is no row. */
  lemma IndexShowsLastChange(store: HistoryStore, key: Key)
    requires store.Valid()
    ensures (forall i :: !IsLastTracked(store.log, key, i)) ==> key !in store.current
    ensures forall i :: IsLastTracked(store.log, key, i) ==>
              var e := store.log[i];
              && (e.operation != Diff.Delete && e.operation != Diff.Unlink ==> key in store.current)
              && (e.operation == Diff.Delete || e.operation == Diff.Unlink ==>
                    (key in store.current <==> e.after.hash !in {None, Some("")} || e.after.refPk !in {None, Some("")}))
              && (key in store.current ==> store.current[key].shown == Shown(e.id, e.valueType, e.after))
  {
    hide WellFormed, CurrentRowsMatch, LogRowsExist, ProducersLinked, ChangesLinked, Replay;
    assert store.log[..|store.log|] == store.log;
    ReplayShowsLast(store.log, key);
    forall i, j | IsLastTracked(store.log, key, i) && IsLastTracked(store.log, key, j)
      ensures i == j
    {
    }
  }
}
